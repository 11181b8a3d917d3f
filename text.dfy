/** The parts of Go's `strings` package that the query engine and the URL
    parser rely on, over `string == seq<char>`.

    Whitespace is the ASCII set that Go's `unicode.IsSpace` accepts below
    0x80: space, tab, newline, vertical tab, form feed and carriage return.
    Go also treats U+0085, U+00A0 and the other Unicode spaces as
    whitespace; the model does not. */
module Text {

  predicate IsSpace(c: char) {
    c == ' ' || '\t' <= c <= '\r'
  }

  predicate NoSpace(s: string) {
    forall i :: 0 <= i < |s| ==> !IsSpace(s[i])
  }

  predicate AllSpace(s: string) {
    forall i :: 0 <= i < |s| ==> IsSpace(s[i])
  }

  /** A field of `strings.Fields`: a non-empty run without whitespace. */
  predicate IsToken(t: string) {
    t != [] && NoSpace(t)
  }

  predicate HasPrefix(s: string, p: string) {
    |p| <= |s| && s[..|p|] == p
  }

  predicate HasSuffix(s: string, p: string) {
    |p| <= |s| && s[|s| - |p|..] == p
  }

  /** `strings.TrimPrefix`: removes one leading `p`, if present. */
  function TrimPrefix(s: string, p: string): (r: string)
    ensures HasPrefix(s, p) ==> s == p + r
    ensures !HasPrefix(s, p) ==> r == s
  {
    if HasPrefix(s, p) then s[|p|..] else s
  }

  /** `strings.TrimSuffix`: removes one trailing `p`, if present. */
  function TrimSuffix(s: string, p: string): (r: string)
    ensures HasSuffix(s, p) ==> s == r + p
    ensures !HasSuffix(s, p) ==> r == s
  {
    if HasSuffix(s, p) then s[..|s| - |p|] else s
  }

  /** `strings.Index` for a one-character separator: the first position of
      `c` in `s`, or -1. */
  function Index(s: string, c: char): (i: int)
    ensures -1 <= i < |s|
    ensures i == -1 <==> c !in s
    ensures 0 <= i ==> s[i] == c && c !in s[..i]
  {
    if s == [] then -1
    else if s[0] == c then 0
    else
      var j := Index(s[1..], c);
      assert s[1..] + [] == s[1..];
      if j == -1 then
        assert s == [s[0]] + s[1..];
        -1
      else
        assert s[..j + 1] == [s[0]] + s[1..][..j];
        j + 1
  }

  /** Length of the leading run of non-whitespace characters. */
  function TokenLen(s: string): (n: nat)
    ensures n <= |s|
    ensures forall i :: 0 <= i < n ==> !IsSpace(s[i])
    ensures n < |s| ==> IsSpace(s[n])
  {
    if s == [] || IsSpace(s[0]) then 0 else 1 + TokenLen(s[1..])
  }

  /** `strings.Fields`: the maximal runs of non-whitespace, in order. */
  function Fields(s: string): (fs: seq<string>)
    decreases |s|
    ensures forall i :: 0 <= i < |fs| ==> IsToken(fs[i])
  {
    if s == [] then []
    else if IsSpace(s[0]) then Fields(s[1..])
    else
      var n := TokenLen(s);
      [s[..n]] + Fields(s[n..])
  }

  /** `strings.Join`. */
  function Join(ts: seq<string>, sep: string): string {
    if |ts| == 0 then ""
    else if |ts| == 1 then ts[0]
    else ts[0] + sep + Join(ts[1..], sep)
  }

  /** `strings.Split` for a one-character separator: always at least one
      part, and no part contains the separator. */
  function Split(s: string, c: char): (parts: seq<string>)
    decreases |s|
    ensures |parts| >= 1
    ensures forall i :: 0 <= i < |parts| ==> c !in parts[i]
  {
    var i := Index(s, c);
    if i == -1 then [s] else [s[..i]] + Split(s[i + 1..], c)
  }

  function TrimLeftSpace(s: string): (r: string)
    ensures r == [] || !IsSpace(r[0])
    ensures |r| <= |s| && r == s[|s| - |r|..]
  {
    if s != [] && IsSpace(s[0]) then TrimLeftSpace(s[1..]) else s
  }

  function TrimRightSpace(s: string): (r: string)
    ensures r == [] || !IsSpace(r[|r| - 1])
    ensures |r| <= |s| && r == s[..|r|]
  {
    if s != [] && IsSpace(s[|s| - 1]) then TrimRightSpace(s[..|s| - 1]) else s
  }

  /** `strings.TrimSpace`: the result is empty or starts and ends with a
      non-whitespace character. */
  function TrimSpace(s: string): (r: string)
    ensures r == [] || (!IsSpace(r[0]) && !IsSpace(r[|r| - 1]))
  {
    TrimRightSpace(TrimLeftSpace(s))
  }

  // ---------------------------------------------------------------------
  // Lemmas

  /** `TokenLen` is the unique length of a whitespace-free prefix that is
      followed by whitespace or by the end. */
  lemma TokenLenIs(s: string, m: nat)
    requires m <= |s|
    requires forall i :: 0 <= i < m ==> !IsSpace(s[i])
    requires m < |s| ==> IsSpace(s[m])
    ensures TokenLen(s) == m
  {
  }

  /** A single token splits into itself. */
  lemma FieldsOfToken(t: string)
    requires IsToken(t)
    ensures Fields(t) == [t]
  {
    TokenLenIs(t, |t|);
    assert t[..|t|] == t;
    assert t[|t|..] == [];
  }

  /** Splitting distributes over a single separating space. */
  lemma {:induction false} FieldsSpaceConcat(a: string, b: string)
    ensures Fields(a + " " + b) == Fields(a) + Fields(b)
    decreases |a|
  {
    var s := a + " " + b;
    if a == [] {
      assert s[1..] == b;
    } else if IsSpace(a[0]) {
      assert s[1..] == a[1..] + " " + b;
      FieldsSpaceConcat(a[1..], b);
    } else {
      var n := TokenLen(a);
      TokenLenIs(s, n);
      assert s[..n] == a[..n];
      assert s[n..] == a[n..] + " " + b;
      FieldsSpaceConcat(a[n..], b);
    }
  }

  /** Joining tokens with single spaces and splitting again gives the
      tokens back. */
  lemma {:induction false} FieldsJoin(ts: seq<string>)
    requires forall i :: 0 <= i < |ts| ==> IsToken(ts[i])
    ensures Fields(Join(ts, " ")) == ts
  {
    if |ts| == 1 {
      FieldsOfToken(ts[0]);
    } else if |ts| > 1 {
      FieldsJoin(ts[1..]);
      FieldsSpaceConcat(ts[0], Join(ts[1..], " "));
      FieldsOfToken(ts[0]);
      assert ts == [ts[0]] + ts[1..];
    }
  }

  /** Joining the parts of a split with the separator gives the input back. */
  lemma {:induction false} SplitJoin(s: string, c: char)
    ensures Join(Split(s, c), [c]) == s
    decreases |s|
  {
    var i := Index(s, c);
    if i != -1 {
      var rest := Split(s[i + 1..], c);
      SplitJoin(s[i + 1..], c);
      assert Split(s, c) == [s[..i]] + rest;
      assert ([s[..i]] + rest)[1..] == rest;
      assert s == s[..i] + [c] + s[i + 1..];
    }
  }

  /** A string with exactly one separator splits into the two sides. */
  lemma SplitTwo(a: string, b: string, c: char)
    requires c !in a && c !in b
    ensures Split(a + [c] + b, c) == [a, b]
  {
    var s := a + [c] + b;
    assert s[|a|] == c;
    var i := Index(s, c);
    assert i == |a|;
    assert s[..i] == a;
    assert s[i + 1..] == b;
    assert Index(b, c) == -1;
    assert Split(b, c) == [b];
  }

  lemma TrimLeftSpacePadded(w: string, s: string)
    requires AllSpace(w)
    requires s != [] && !IsSpace(s[0])
    ensures TrimLeftSpace(w + s) == s
  {
    if w != [] {
      assert (w + s)[1..] == w[1..] + s;
      TrimLeftSpacePadded(w[1..], s);
    }
  }

  lemma TrimRightSpacePadded(s: string, w: string)
    requires AllSpace(w)
    requires s != [] && !IsSpace(s[|s| - 1])
    ensures TrimRightSpace(s + w) == s
  {
    if w != [] {
      assert (s + w)[..|s + w| - 1] == s + w[..|w| - 1];
      TrimRightSpacePadded(s, w[..|w| - 1]);
    } else {
      assert s + w == s;
    }
  }

  /** `TrimSpace` removes exactly the surrounding whitespace of a string
      whose ends are not whitespace. */
  lemma TrimSpacePadded(w1: string, s: string, w2: string)
    requires AllSpace(w1) && AllSpace(w2)
    requires s != [] && !IsSpace(s[0]) && !IsSpace(s[|s| - 1])
    ensures TrimSpace(w1 + s + w2) == s
  {
    assert w1 + s + w2 == w1 + (s + w2);
    TrimLeftSpacePadded(w1, s + w2);
    TrimRightSpacePadded(s, w2);
  }
}
