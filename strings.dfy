/** Text operations the converter relies on: Python's `str.strip()` with no
    argument and `str.join`. */
module Strings {

  /** The characters Python's `str.isspace()` accepts, which are the ones
      `str.strip()` removes when called without an argument. */
  predicate IsWhitespace(c: char) {
    c == ' ' || '\t' <= c <= '\r' || '\U{1C}' <= c <= '\U{1F}'
    || c == '\U{85}' || c == '\U{A0}' || c == '\U{1680}'
    || '\U{2000}' <= c <= '\U{200A}' || c == '\U{2028}' || c == '\U{2029}'
    || c == '\U{202F}' || c == '\U{205F}' || c == '\U{3000}'
  }

  /** True when every character of s is whitespace (so "" is blank). */
  predicate IsBlank(s: string) {
    forall i :: 0 <= i < |s| ==> IsWhitespace(s[i])
  }

  /** s without its leading whitespace. */
  function TrimStart(s: string): string {
    if s != [] && IsWhitespace(s[0]) then TrimStart(s[1..]) else s
  }

  /** s without its trailing whitespace. */
  function TrimEnd(s: string): string {
    if s != [] && IsWhitespace(s[|s| - 1]) then TrimEnd(s[..|s| - 1]) else s
  }

  /** Python's `s.strip()`. */
  function Trim(s: string): string {
    TrimEnd(TrimStart(s))
  }

  /** TrimStart(s) is the suffix of s after its longest whitespace prefix. */
  lemma {:induction false} TrimStartSpec(s: string) returns (i: nat)
    ensures i <= |s| && TrimStart(s) == s[i..]
    ensures IsBlank(s[..i]) && (i < |s| ==> !IsWhitespace(s[i]))
  {
    if s != [] && IsWhitespace(s[0]) {
      var t := s[1..];
      var k := TrimStartSpec(t);
      i := k + 1;
      assert t[k..] == s[i..];
      forall n | 0 <= n < i ensures IsWhitespace(s[n]) {
        if n > 0 {
          assert s[n] == t[..k][n - 1];
        }
      }
    } else {
      i := 0;
    }
  }

  /** TrimEnd(s) is the prefix of s before its longest whitespace suffix. */
  lemma {:induction false} TrimEndSpec(s: string) returns (j: nat)
    ensures j <= |s| && TrimEnd(s) == s[..j]
    ensures IsBlank(s[j..]) && (j > 0 ==> !IsWhitespace(s[j - 1]))
  {
    if s != [] && IsWhitespace(s[|s| - 1]) {
      var t := s[..|s| - 1];
      j := TrimEndSpec(t);
      assert t[..j] == s[..j];
      forall n | j <= n < |s| ensures IsWhitespace(s[n]) {
        if n < |s| - 1 {
          assert s[n] == t[j..][n - j];
        }
      }
    } else {
      j := |s|;
    }
  }

  /** `s.strip()` is the slice s[i..j] that is left once the whitespace
      before i and after j is removed; it starts and ends with a
      non-whitespace character unless it is empty. */
  lemma TrimSlice(s: string) returns (i: nat, j: nat)
    ensures i <= j <= |s| && Trim(s) == s[i..j]
    ensures IsBlank(s[..i]) && IsBlank(s[j..])
    ensures i < j ==> !IsWhitespace(s[i]) && !IsWhitespace(s[j - 1])
  {
    i := TrimStartSpec(s);
    var a := s[i..];
    var k := TrimEndSpec(a);
    j := i + k;
    assert a[..k] == s[i..j];
    assert a[k..] == s[j..];
    if k > 0 {
      assert a[0] == s[i];
      assert a[k - 1] == s[j - 1];
    }
  }

  /** Trimming yields "" exactly for blank strings. */
  lemma TrimBlank(s: string)
    ensures Trim(s) == "" <==> IsBlank(s)
  {
    var i, j := TrimSlice(s);
    if i == j {
      forall n | 0 <= n < |s| ensures IsWhitespace(s[n]) {
        if n < i {
          assert s[n] == s[..i][n];
        } else {
          assert s[n] == s[j..][n - j];
        }
      }
    } else {
      assert !IsWhitespace(s[i]);
    }
  }

  /** A non-blank trimmed string neither starts nor ends with whitespace. */
  lemma TrimEnds(s: string)
    ensures Trim(s) != "" ==> !IsWhitespace(Trim(s)[0]) && !IsWhitespace(Trim(s)[|Trim(s)| - 1])
  {
    var i, j := TrimSlice(s);
  }

  /** Trimming twice changes nothing more. */
  lemma TrimIdempotent(s: string)
    ensures Trim(Trim(s)) == Trim(s)
  {
    var r := Trim(s);
    TrimEnds(s);
    if r != "" {
      assert TrimStart(r) == r;
      assert TrimEnd(r) == r;
    }
  }

  /** Python's `sep.join(xs)`. */
  function Join(xs: seq<string>, sep: string): string {
    if xs == [] then ""
    else if |xs| == 1 then xs[0]
    else xs[0] + sep + Join(xs[1..], sep)
  }

  /** A join starts with its first part, and joining several parts puts
      at least one separator after the first. */
  lemma {:induction false} JoinStartsWithFirst(xs: seq<string>, sep: string)
    requires xs != []
    ensures xs[0] <= Join(xs, sep)
    ensures |xs| > 1 ==> |Join(xs, sep)| >= |xs[0]| + |sep| + |xs[1]|
  {
    if |xs| > 1 {
      JoinStartsWithFirst(xs[1..], sep);
    }
  }
}
