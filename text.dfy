/**
 * The three string operations the request handler applies to an image
 * reference, with the semantics of Python's `str.startswith`,
 * `str.replace(old, "")` and `str.split(sep, 1)`.
 */
module Text {
  import opened Wrappers

  /** The storage scheme recognised in image references. */
  const S3Scheme: string := "s3://"

  function StartsWith(s: string, prefix: string): (b: bool)
    ensures b <==> exists t :: s == prefix + t
  {
    if |prefix| <= |s| && s[..|prefix|] == prefix then
      assert s == prefix + s[|prefix|..];
      true
    else
      false
  }

  /** `pat` occurs in `s` starting at index `i`. */
  predicate OccursAt(s: string, pat: string, i: nat) {
    i + |pat| <= |s| && s[i..i + |pat|] == pat
  }

  /**
   * `s.replace(pat, "")`: scans left to right and deletes every
   * non-overlapping occurrence of `pat`, not only a leading one.
   */
  function RemoveAll(s: string, pat: string): (r: string)
    requires |pat| > 0
    ensures |r| <= |s|
    decreases |s|
  {
    if |s| < |pat| then
      s
    else if s[..|pat|] == pat then
      RemoveAll(s[|pat|..], pat)
    else
      [s[0]] + RemoveAll(s[1..], pat)
  }

  /** Where `pat` does not occur, deleting its occurrences changes nothing. */
  lemma {:induction false} RemoveAllWithoutOccurrence(s: string, pat: string)
    requires |pat| > 0
    requires forall i: nat :: !OccursAt(s, pat, i)
    ensures RemoveAll(s, pat) == s
    decreases |s|
  {
    if |pat| <= |s| {
      assert !OccursAt(s, pat, 0);
      forall i: nat ensures !OccursAt(s[1..], pat, i) {
        assert !OccursAt(s, pat, i + 1);
      }
      RemoveAllWithoutOccurrence(s[1..], pat);
      assert s == [s[0]] + s[1..];
    }
  }

  /**
   * Because "s3://" cannot overlap itself, deleting its occurrences splits
   * cleanly at any occurrence: what lies on either side is processed alone.
   */
  lemma {:induction false} RemoveSchemeAround(a: string, b: string)
    ensures RemoveAll(a + S3Scheme + b, S3Scheme) == RemoveAll(a, S3Scheme) + RemoveAll(b, S3Scheme)
    decreases |a|
  {
    var s := a + S3Scheme + b;
    if a == [] {
      assert s == S3Scheme + b;
      assert s[..5] == S3Scheme;
      assert s[5..] == b;
    } else if |a| < 5 {
      // An occurrence at 0 would put an 's' at index |a| of "s3://".
      assert s[..5][|a|] == 's';
      assert s[..5] != S3Scheme;
      assert s[1..] == a[1..] + S3Scheme + b;
      RemoveSchemeAround(a[1..], b);
      assert RemoveAll(a, S3Scheme) == a;
      assert RemoveAll(a[1..], S3Scheme) == a[1..];
      assert a == [a[0]] + a[1..];
    } else if a[..5] == S3Scheme {
      assert s[..5] == a[..5];
      assert s[5..] == a[5..] + S3Scheme + b;
      RemoveSchemeAround(a[5..], b);
    } else {
      assert s[..5] == a[..5];
      assert s[1..] == a[1..] + S3Scheme + b;
      RemoveSchemeAround(a[1..], b);
    }
  }

  /**
   * Every occurrence goes, wherever it stands: "s3://" + bucket + "/s3://" + key
   * becomes bucket + "/" + key.
   */
  lemma RemoveAllIsNotPrefixOnly(bucket: string, key: string)
    requires forall i: nat :: !OccursAt(bucket + "/", S3Scheme, i)
    requires forall i: nat :: !OccursAt(key, S3Scheme, i)
    ensures RemoveAll(S3Scheme + bucket + "/" + S3Scheme + key, S3Scheme) == bucket + "/" + key
  {
    var mid := bucket + "/";
    assert S3Scheme + bucket + "/" + S3Scheme + key == [] + S3Scheme + (mid + S3Scheme + key);
    RemoveSchemeAround([], mid + S3Scheme + key);
    RemoveSchemeAround(mid, key);
    RemoveAllWithoutOccurrence(mid, S3Scheme);
    RemoveAllWithoutOccurrence(key, S3Scheme);
  }

  /** "s3://" holds a '/', so a string without '/' holds no "s3://". */
  lemma NoSchemeWithoutSlash(s: string)
    requires '/' !in s
    ensures forall i: nat :: !OccursAt(s, S3Scheme, i)
  {
    forall i: nat ensures !OccursAt(s, S3Scheme, i) {
      if i + 5 <= |s| {
        assert s[i..i + 5][3] == s[i + 3];
      }
    }
  }

  /** Index of the first `c` in `s`, if any. */
  function IndexOf(s: string, c: char): (r: Option<nat>)
    ensures r.None? <==> c !in s
    ensures r.Some? ==> r.value < |s| && s[r.value] == c && c !in s[..r.value]
  {
    if |s| == 0 then
      None
    else if s[0] == c then
      Some(0)
    else
      match IndexOf(s[1..], c)
      case None => None
      case Some(i) =>
        assert s[1..][..i] == s[1..i + 1];
        assert s[..i + 1] == [s[0]] + s[1..i + 1];
        Some(i + 1)
  }

  /**
   * `s.split(sep, 1)`: the whole string when `sep` is absent, otherwise the
   * part before the first `sep` and everything after it.
   */
  function SplitOnce(s: string, sep: char): (parts: seq<string>)
    ensures 1 <= |parts| <= 2
    ensures |parts| == 1 <==> sep !in s
    ensures |parts| == 1 ==> parts[0] == s
    ensures |parts| == 2 ==> s == parts[0] + [sep] + parts[1] && sep !in parts[0]
  {
    match IndexOf(s, sep)
    case None => [s]
    case Some(i) =>
      assert s == s[..i] + [sep] + s[i + 1..];
      [s[..i], s[i + 1..]]
  }

  /** Splitting at the first separator recovers the parts on either side of it. */
  lemma SplitOnceAtFirst(a: string, sep: char, b: string)
    requires sep !in a
    ensures SplitOnce(a + [sep] + b, sep) == [a, b]
  {
    var s := a + [sep] + b;
    assert s[|a|] == sep;
    var parts := SplitOnce(s, sep);
    assert |parts| == 2;
    var n := |parts[0]|;
    assert parts[0] == s[..n];
    assert parts[0] == s[..|a|] == a;
    assert parts[1] == s[n + 1..] == b;
  }
}
