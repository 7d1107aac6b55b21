/** The two pieces of PHP string behaviour the request handler depends on:
    `trim` with its default character list, and the truthiness of a string
    used as a condition. */
module PhpString {

  /** The characters `trim` strips when no list is given: space, tab, line
      feed, carriage return, NUL and vertical tab. */
  predicate IsTrimChar(c: char) {
    c == ' ' || c == '\t' || c == '\n' || c == '\r' || c == '\0' || c == '\U{B}'
  }

  /** A string used as a condition is false exactly when it is "" or "0". */
  predicate Truthy(s: string) {
    s != "" && s != "0"
  }

  /** Every character of `s` is one that `trim` strips. */
  predicate AllTrimChars(s: string) {
    forall k :: 0 <= k < |s| ==> IsTrimChar(s[k])
  }

  /** Neither end of `s` is a character that `trim` strips. */
  predicate NoEdgeTrimChars(s: string) {
    |s| == 0 || (!IsTrimChar(s[0]) && !IsTrimChar(s[|s| - 1]))
  }

  /** `ltrim`: drops the strippable prefix. */
  function TrimLeft(s: string): (r: string)
    ensures |r| <= |s|
  {
    if |s| > 0 && IsTrimChar(s[0]) then TrimLeft(s[1..]) else s
  }

  /** `rtrim`: drops the strippable suffix. */
  function TrimRight(s: string): (r: string)
    ensures |r| <= |s|
  {
    if |s| > 0 && IsTrimChar(s[|s| - 1]) then TrimRight(s[..|s| - 1]) else s
  }

  /** `trim`: strips both ends. */
  function Trim(s: string): (r: string)
    ensures |r| <= |s|
  {
    TrimRight(TrimLeft(s))
  }

  /** What `ltrim` keeps is a suffix of `s` that does not start with a
      strippable character, and only strippable characters precede it. */
  lemma {:induction false} TrimLeftSpec(s: string)
    ensures var r := TrimLeft(s);
      && r == s[|s| - |r|..]
      && AllTrimChars(s[..|s| - |r|])
      && (|r| > 0 ==> !IsTrimChar(r[0]))
    decreases |s|
  {
    if |s| > 0 && IsTrimChar(s[0]) {
      TrimLeftSpec(s[1..]);
      var r := TrimLeft(s);
      assert s[1..][..|s| - 1 - |r|] == s[1..|s| - |r|];
    }
  }

  /** What `rtrim` keeps is a prefix of `s` that does not end with a
      strippable character, and only strippable characters follow it. */
  lemma {:induction false} TrimRightSpec(s: string)
    ensures var r := TrimRight(s);
      && r == s[..|r|]
      && AllTrimChars(s[|r|..])
      && (|r| > 0 ==> !IsTrimChar(r[|r| - 1]))
    decreases |s|
  {
    if |s| > 0 && IsTrimChar(s[|s| - 1]) {
      TrimRightSpec(s[..|s| - 1]);
      var r := TrimRight(s);
      assert s[..|s| - 1][|r|..] == s[|r|..|s| - 1];
      assert forall k :: 0 <= k < |s| - 1 - |r| ==> s[|r|..][k] == s[..|s| - 1][|r|..][k];
    }
  }

  /** The result of `trim` begins and ends with a kept character. */
  lemma TrimNoEdges(s: string)
    ensures NoEdgeTrimChars(Trim(s))
  {
    var l := TrimLeft(s);
    var r := TrimRight(l);
    TrimLeftSpec(s);
    TrimRightSpec(l);
    assert |r| > 0 ==> r[0] == l[0];
  }

  /** What `trim` removes: the result is the middle slice of `s`, and only
      strippable characters lie on either side of it. */
  lemma TrimIsMiddleSlice(s: string)
    ensures var r := Trim(s);
      exists i :: 0 <= i <= |s| - |r| && r == s[i..i + |r|]
                  && AllTrimChars(s[..i]) && AllTrimChars(s[i + |r|..])
  {
    var l := TrimLeft(s);
    var r := TrimRight(l);
    TrimLeftSpec(s);
    TrimRightSpec(l);
    var i := |s| - |l|;
    assert Trim(s) == r;
    assert r == s[i..i + |r|];
    assert AllTrimChars(s[..i]);
    assert s[i + |r|..] == l[|r|..];
    assert AllTrimChars(s[i + |r|..]);
  }

  /** Trimming a string without strippable ends gives it back unchanged. */
  lemma TrimKeepsClean(s: string)
    requires NoEdgeTrimChars(s)
    ensures Trim(s) == s
  {
    assert TrimLeft(s) == s;
  }

  /** Trimming twice is the same as trimming once. */
  lemma TrimIdempotent(s: string)
    ensures Trim(Trim(s)) == Trim(s)
  {
    TrimNoEdges(s);
    TrimKeepsClean(Trim(s));
  }

  /** `ltrim` passes over a strippable prefix and stops at the first kept character. */
  lemma {:induction false} TrimLeftSkips(p: string, t: string)
    requires AllTrimChars(p)
    requires |t| > 0 ==> !IsTrimChar(t[0])
    ensures TrimLeft(p + t) == t
    decreases |p|
  {
    if |p| == 0 {
      assert p + t == t;
    } else {
      assert (p + t)[0] == p[0];
      assert (p + t)[1..] == p[1..] + t;
      TrimLeftSkips(p[1..], t);
    }
  }

  /** `rtrim` passes over a strippable suffix and stops at the last kept character. */
  lemma {:induction false} TrimRightSkips(t: string, q: string)
    requires AllTrimChars(q)
    requires |t| > 0 ==> !IsTrimChar(t[|t| - 1])
    ensures TrimRight(t + q) == t
    decreases |q|
  {
    if |q| == 0 {
      assert t + q == t;
    } else {
      assert (t + q)[|t + q| - 1] == q[|q| - 1];
      assert (t + q)[..|t + q| - 1] == t + q[..|q| - 1];
      TrimRightSkips(t, q[..|q| - 1]);
    }
  }

  /** A field made only of whitespace trims to "" and is falsy. */
  lemma BlankTrimsToFalsy(s: string)
    requires AllTrimChars(s)
    ensures Trim(s) == "" && !Truthy(Trim(s))
  {
    TrimLeftSkips(s, "");
    assert s + "" == s;
  }

  /** A field reading "0" between blanks trims to "0", which is falsy too. */
  lemma PaddedZeroTrimsToFalsy(p: string, q: string)
    requires AllTrimChars(p) && AllTrimChars(q)
    ensures Trim(p + "0" + q) == "0" && !Truthy(Trim(p + "0" + q))
  {
    assert p + "0" + q == p + ("0" + q);
    TrimLeftSkips(p, "0" + q);
    TrimRightSkips("0", q);
  }
}
