/**
 * The `GET /newsletters/{id}?email=...` handler as a pure decision
 * procedure: it checks the email, looks the newsletter up (marking it read),
 * resolves a storage image reference through a presigning oracle, and ends
 * in a rendered page or an HTTP error carrying its own status.
 */
module Routes {
  import opened Wrappers
  import opened Models
  import opened Text
  import opened DatabaseService

  /**
   * What the presigning call gives back: the value it returns (`None` when
   * the storage client reports an error), or an exception it lets escape.
   */
  datatype Presigned = Returned(url: Option<string>) | Raised

  /** How the image reference ends up. */
  datatype ImageResolution =
    | Resolved(url: string)   // the URL the page will embed
    | SigningFailed           // the oracle gave no usable URL
    | SigningRaised           // the oracle raised

  /** The handler's answer: the page it renders (status 200) or the HTTP error it raises. */
  datatype Response =
    | Rendered(newsletterId: string, content: string, imageUrl: string, email: string, createdAt: Timestamp)
    | HttpError(status: nat, detail: string)

  /** A request's response together with the table it leaves behind. */
  datatype Served = Served(response: Response, table: Table)

  const EmailRequired: string := "Email parameter is required"
  const NewsletterNotFound: string := "Newsletter not found"
  const ImageUnavailable: string := "Failed to access image resource"
  const InternalError: string := "Internal server error"

  function Status(r: Response): nat {
    if r.Rendered? then 200 else r.status
  }

  /** `not email`: the query parameter is absent or empty. */
  predicate EmailMissing(email: Option<string>) {
    email.None? || email.value == ""
  }

  /**
   * The object key handed to the presigning call, if one is made: for an
   * "s3://" reference, everything after the first '/' once every "s3://"
   * has been deleted; the bucket before that '/' is dropped.
   */
  function ObjectKey(imageUrl: string): (key: Option<string>)
    ensures key.Some? <==> StartsWith(imageUrl, S3Scheme) && '/' in RemoveAll(imageUrl, S3Scheme)
    ensures key.Some? ==>
      var stripped := RemoveAll(imageUrl, S3Scheme);
      var cut := |stripped| - |key.value| - 1;
      0 <= cut && stripped == stripped[..cut] + "/" + key.value && '/' !in stripped[..cut]
  {
    if StartsWith(imageUrl, S3Scheme) then
      var parts := SplitOnce(RemoveAll(imageUrl, S3Scheme), '/');
      if |parts| > 1 then
        var stripped := RemoveAll(imageUrl, S3Scheme);
        assert stripped[..|parts[0]|] == parts[0];
        Some(parts[1])
      else
        None
    else
      None
  }

  /**
   * The image URL the page embeds: a reference that yields no object key is
   * kept as it is; otherwise the presigned URL replaces it, and a missing or
   * empty one is a failure.
   */
  function ResolveImage(imageUrl: string, presign: string -> Presigned): (res: ImageResolution)
    ensures ObjectKey(imageUrl).None? ==> res == Resolved(imageUrl)
    ensures ObjectKey(imageUrl).Some? ==>
      var reply := presign(ObjectKey(imageUrl).value);
      && (res.Resolved? <==> reply.Returned? && reply.url.Some? && reply.url.value != "")
      && (res.Resolved? ==> res.url == reply.url.value)
      && (res == SigningRaised <==> reply.Raised?)
  {
    match ObjectKey(imageUrl)
    case None => Resolved(imageUrl)
    case Some(key) =>
      match presign(key)
      case Raised => SigningRaised
      case Returned(url) =>
        if url.Some? && url.value != "" then Resolved(url.value) else SigningFailed
  }

  /** The oracle is consulted only for the object key, so oracles that agree there resolve alike. */
  lemma ResolveImageConsultsOnlyKey(imageUrl: string, p1: string -> Presigned, p2: string -> Presigned)
    requires ObjectKey(imageUrl).Some? ==> p1(ObjectKey(imageUrl).value) == p2(ObjectKey(imageUrl).value)
    ensures ResolveImage(imageUrl, p1) == ResolveImage(imageUrl, p2)
  {
  }

  /**
   * The rest of the handler once the record's `image_url` has been read:
   * resolve the image and render the page, or raise the signing error.
   */
  function Page(id: string, n: Newsletter, imageUrl: string, email: string, presign: string -> Presigned): Response {
    match ResolveImage(imageUrl, presign)
    case Resolved(url) => Rendered(id, n.content, url, email, n.createdAt)
    case SigningFailed => HttpError(500, ImageUnavailable)
    case SigningRaised => HttpError(500, InternalError)
  }

  /**
   * `view_newsletter`, corrected as described in README.md: the record the
   * lookup returns is used as returned.
   */
  function ViewNewsletter(t: Table, id: string, email: Option<string>, fault: StoreFault, now: Timestamp,
                          presign: string -> Presigned): (s: Served)
    // Every outcome is exactly one of 200, 400, 404 and 500.
    ensures Status(s.response) in {200, 400, 404, 500}
    // A missing or empty email is refused before the store is consulted.
    ensures EmailMissing(email) <==> s.response == HttpError(400, EmailRequired)
    ensures EmailMissing(email) ==> s.table == t
    // Otherwise the table is what the lookup leaves, whatever the response.
    ensures !EmailMissing(email) ==> s.table == Lookup(t, id, email.value, fault, now).table
    // A failing database is not reported as such: the generic handler answers 500.
    ensures !EmailMissing(email) && Lookup(t, id, email.value, fault, now).outcome.StoreError? ==>
              s.response == HttpError(500, InternalError)
    // 404 exactly when the lookup finds nothing.
    ensures s.response == HttpError(404, NewsletterNotFound) <==>
              !EmailMissing(email) && Lookup(t, id, email.value, fault, now).outcome.NotFound?
    ensures Status(s.response) == 404 ==> s.response == HttpError(404, NewsletterNotFound)
    // A matching row is answered by its page when its image resolves, otherwise by the signing error.
    ensures !EmailMissing(email) && Lookup(t, id, email.value, fault, now).outcome.Found? ==>
              match ResolveImage(t[id].imageUrl, presign)
              case Resolved(u) => s.response == Rendered(id, t[id].content, u, email.value, t[id].createdAt)
              case SigningFailed => s.response == HttpError(500, ImageUnavailable)
              case SigningRaised => s.response == HttpError(500, InternalError)
    // A page is rendered only for the row whose id and email both match, with its image resolved.
    ensures s.response.Rendered? ==>
              !EmailMissing(email) && id in t && t[id].email == email.value &&
              s.response.newsletterId == id && s.response.email == email.value &&
              s.response.content == t[id].content && s.response.createdAt == t[id].createdAt &&
              ResolveImage(t[id].imageUrl, presign) == Resolved(s.response.imageUrl)
  {
    if EmailMissing(email) then
      Served(HttpError(400, EmailRequired), t)
    else
      var lookup := Lookup(t, id, email.value, fault, now);
      var response :=
        match lookup.outcome
        case StoreError => HttpError(500, InternalError)
        case NotFound => HttpError(404, NewsletterNotFound)
        case Found(n, _) => Page(id, n, n.imageUrl, email.value, presign);
      Served(response, lookup.table)
  }

  /**
   * Reading `image_url` from the record the lookup returned. By now the
   * lookup's session is closed, so an expired record cannot be reloaded and
   * the read raises (`DetachedInstanceError`); otherwise the loaded value is
   * returned.
   */
  function ReadImageUrl(n: Newsletter, expired: bool): Option<string> {
    if expired then None else Some(n.imageUrl)
  }

  /**
   * `view_newsletter` as written, under the session defaults it runs with:
   * the email check, the lookup, the 404, then the read of `image_url` from
   * the returned record, whose failure the generic handler turns into 500.
   */
  function ViewNewsletterAsWritten(t: Table, id: string, email: Option<string>, fault: StoreFault, now: Timestamp,
                                   presign: string -> Presigned): (s: Served)
    ensures s.table == ViewNewsletter(t, id, email, fault, now, presign).table
    // The first view of an unread row commits, so the returned record is expired and the read raises.
    ensures !EmailMissing(email) && Commits(t, id, email.value, fault) ==> s.response == HttpError(500, InternalError)
    // A request that commits nothing, such as any later view, is answered as by the corrected handler.
    ensures EmailMissing(email) || !Commits(t, id, email.value, fault) ==> s == ViewNewsletter(t, id, email, fault, now, presign)
  {
    if EmailMissing(email) then
      Served(HttpError(400, EmailRequired), t)
    else
      var lookup := Lookup(t, id, email.value, fault, now);
      var response :=
        match lookup.outcome
        case StoreError => HttpError(500, InternalError)
        case NotFound => HttpError(404, NewsletterNotFound)
        case Found(n, expired) =>
          match ReadImageUrl(n, expired)
          case None => HttpError(500, InternalError)
          case Some(imageUrl) => Page(id, n, imageUrl, email.value, presign);
      Served(response, lookup.table)
  }

  /**
   * The first view of an unread newsletter with a direct image URL: as
   * written it answers 500 although the row was marked read; corrected it
   * renders the page with the URL unchanged.
   */
  lemma FirstViewFailsAsWritten(n: Newsletter, now: Timestamp, presign: string -> Presigned)
    requires !n.read && n.email != "" && !StartsWith(n.imageUrl, S3Scheme)
    ensures var t := map[n.id := n];
            var asWritten := ViewNewsletterAsWritten(t, n.id, Some(n.email), NoFault, now, presign);
            var corrected := ViewNewsletter(t, n.id, Some(n.email), NoFault, now, presign);
            && asWritten.response == HttpError(500, InternalError)
            && corrected.response == Rendered(n.id, n.content, n.imageUrl, n.email, n.createdAt)
            && asWritten.table == corrected.table == map[n.id := MarkedRead(n, now)]
  {
    var t := map[n.id := n];
    assert Commits(t, n.id, n.email, NoFault);
    assert ObjectKey(n.imageUrl) == None;
  }

  /**
   * Reading the same newsletter again is served from the already-read row
   * and never writes. The second request may meet a different presigner
   * (a fresh signature, or a failure); the responses agree whenever the
   * image needs no signing or both presigners answer alike for its key.
   */
  lemma SecondViewRendersWithoutWrite(t: Table, id: string, e: string, now1: Timestamp, now2: Timestamp,
                                      p1: string -> Presigned, p2: string -> Presigned)
    requires e != "" && id in t && t[id].email == e
    ensures var first := ViewNewsletter(t, id, Some(e), NoFault, now1, p1);
            var second := ViewNewsletter(first.table, id, Some(e), NoFault, now2, p2);
            && second.table == first.table
            && first.table[id].read
            && ((ObjectKey(t[id].imageUrl).None? ||
                 p1(ObjectKey(t[id].imageUrl).value) == p2(ObjectKey(t[id].imageUrl).value))
                ==> second.response == first.response)
  {
    LookupIdempotent(t, id, e, NoFault, NoFault, now1, now2);
    if ObjectKey(t[id].imageUrl).None? || p1(ObjectKey(t[id].imageUrl).value) == p2(ObjectKey(t[id].imageUrl).value) {
      ResolveImageConsultsOnlyKey(t[id].imageUrl, p1, p2);
    }
  }

  /** A direct image URL reaches the page unchanged, without consulting the oracle. */
  lemma DirectImagePassesThrough(imageUrl: string, presign: string -> Presigned)
    requires !StartsWith(imageUrl, S3Scheme)
    ensures ResolveImage(imageUrl, presign) == Resolved(imageUrl)
  {
  }

  /** "s3://bucket" with no '/' after the bucket is kept as it is, "s3://" included. */
  lemma BucketOnlyReferencePassesThrough(bucket: string, presign: string -> Presigned)
    requires '/' !in bucket
    ensures ResolveImage(S3Scheme + bucket, presign) == Resolved(S3Scheme + bucket)
  {
    assert S3Scheme + bucket == [] + S3Scheme + bucket;
    RemoveSchemeAround([], bucket);
    NoSchemeWithoutSlash(bucket);
    RemoveAllWithoutOccurrence(bucket, S3Scheme);
    assert RemoveAll([], S3Scheme) == [];
  }

  /**
   * "s3://bucket/key" is signed under "key" alone, and a non-empty presigned
   * URL replaces the reference on the page.
   */
  lemma StorageReferenceIsPresigned(bucket: string, key: string, signed: string, presign: string -> Presigned)
    requires '/' !in bucket && forall i: nat :: !OccursAt(bucket + "/" + key, S3Scheme, i)
    requires presign(key) == Returned(Some(signed)) && signed != ""
    ensures ObjectKey(S3Scheme + bucket + "/" + key) == Some(key)
    ensures ResolveImage(S3Scheme + bucket + "/" + key, presign) == Resolved(signed)
  {
    var url := S3Scheme + bucket + "/" + key;
    var stripped := bucket + "/" + key;
    assert url == [] + S3Scheme + stripped && url == S3Scheme + stripped;
    RemoveSchemeAround([], stripped);
    RemoveAllWithoutOccurrence(stripped, S3Scheme);
    assert RemoveAll([], S3Scheme) == [];
    assert StartsWith(url, S3Scheme);
    SplitOnceAtFirst(bucket, '/', key);
  }

  /**
   * A storage reference whose presigning yields nothing, or an empty URL,
   * ends in 500 "Failed to access image resource" even though the row was
   * marked read.
   */
  lemma FailedPresignIs500(t: Table, id: string, e: string, now: Timestamp, presign: string -> Presigned)
    requires e != "" && id in t && t[id].email == e
    requires ObjectKey(t[id].imageUrl).Some?
    requires var reply := presign(ObjectKey(t[id].imageUrl).value);
             reply == Returned(None) || reply == Returned(Some(""))
    ensures var s := ViewNewsletter(t, id, Some(e), NoFault, now, presign);
            s.response == HttpError(500, ImageUnavailable) && s.table[id].read
  {
  }
}
