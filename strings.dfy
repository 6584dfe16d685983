/** JavaScript strings as both pages see them: sequences of UTF-16 code units,
    the reversal behind `reverseString` and the whitespace removal of `String.prototype.trim`. */
module Strings {

  /** One UTF-16 code unit, the element of a JavaScript string. */
  type CodeUnit = c: int | 0 <= c < 0x1_0000

  /** A JavaScript string value; `length`, indexing and `split('')` all count code units,
      so a surrogate pair is two elements. */
  type JsString = seq<CodeUnit>

  /** `split('')`, `reverse()`, `join('')`: the elements of `s` in the opposite order.
      Generic, because Array.prototype.reverse never looks at the elements it moves. */
  function Reverse<T>(s: seq<T>): (r: seq<T>)
    ensures |r| == |s|
    ensures forall i :: 0 <= i < |s| ==> r[i] == s[|s| - 1 - i]
  {
    if s == [] then [] else Reverse(s[1..]) + [s[0]]
  }

  /** Reversing twice gives the input back, so reversal loses nothing. */
  lemma {:induction false} ReverseInvolution<T>(s: seq<T>)
    ensures Reverse(Reverse(s)) == s
  {
    var r := Reverse(s);
    forall i | 0 <= i < |s|
      ensures Reverse(r)[i] == s[i]
    {
      assert Reverse(r)[i] == r[|r| - 1 - i];
    }
  }

  /** The whitespace that `trim` removes: the WhiteSpace code points of ECMAScript
      (TAB, VT, FF, ZWNBSP and every space separator of category Zs) and its line terminators. */
  predicate IsWhiteSpace(c: CodeUnit)
  {
    c == 0x09 || c == 0x0A || c == 0x0B || c == 0x0C || c == 0x0D ||
    c == 0x20 || c == 0xA0 || c == 0x1680 || (0x2000 <= c <= 0x200A) ||
    c == 0x2028 || c == 0x2029 || c == 0x202F || c == 0x205F ||
    c == 0x3000 || c == 0xFEFF
  }

  predicate AllWhiteSpace(s: JsString)
  {
    forall i :: 0 <= i < |s| ==> IsWhiteSpace(s[i])
  }

  /** Drops the leading whitespace of `s`: the result is a suffix of `s` that does not start
      with whitespace (`TrimStartDropsWhiteSpace` shows that only whitespace is dropped). */
  function TrimStart(s: JsString): (r: JsString)
    ensures |r| <= |s| && r == s[|s| - |r|..]
    ensures r == [] || !IsWhiteSpace(r[0])
  {
    if s != [] && IsWhiteSpace(s[0]) then TrimStart(s[1..]) else s
  }

  /** Drops the trailing whitespace of `s`: the result is a prefix of `s` that does not end
      with whitespace (`TrimEndDropsWhiteSpace` shows that only whitespace is dropped). */
  function TrimEnd(s: JsString): (r: JsString)
    ensures |r| <= |s| && r == s[..|r|]
    ensures r == [] || !IsWhiteSpace(r[|r| - 1])
  {
    if s != [] && IsWhiteSpace(s[|s| - 1]) then TrimEnd(s[..|s| - 1]) else s
  }

  lemma {:induction false} TrimStartDropsWhiteSpace(s: JsString)
    ensures AllWhiteSpace(s[..|s| - |TrimStart(s)|])
    decreases |s|
  {
    if s != [] && IsWhiteSpace(s[0]) {
      var t := s[1..];
      TrimStartDropsWhiteSpace(t);
      var n := |s| - |TrimStart(s)|;
      forall i | 0 <= i < n
        ensures IsWhiteSpace(s[..n][i])
      {
        if i > 0 {
          assert s[..n][i] == t[..n - 1][i - 1];
        }
      }
    }
  }

  lemma {:induction false} TrimEndDropsWhiteSpace(s: JsString)
    ensures AllWhiteSpace(s[|TrimEnd(s)|..])
    decreases |s|
  {
    if s != [] && IsWhiteSpace(s[|s| - 1]) {
      var t := s[..|s| - 1];
      TrimEndDropsWhiteSpace(t);
      var n := |TrimEnd(s)|;
      forall j | 0 <= j < |s| - n
        ensures IsWhiteSpace(s[n..][j])
      {
        if j < |s| - 1 - n {
          assert s[n..][j] == t[n..][j];
        }
      }
    }
  }

  /** `String.prototype.trim`: whitespace removed from both ends. */
  function Trim(s: JsString): (r: JsString)
    ensures |r| <= |s|
    ensures r == [] || (!IsWhiteSpace(r[0]) && !IsWhiteSpace(r[|r| - 1]))
  {
    TrimEnd(TrimStart(s))
  }

  /** What `trim` keeps is one contiguous slice of its input, and only whitespace lies
      on either side of it. */
  lemma {:induction false} TrimIsSlice(s: JsString)
    ensures var r := Trim(s);
            exists k :: 0 <= k <= |s| - |r| && r == s[k..k + |r|]
                        && AllWhiteSpace(s[..k]) && AllWhiteSpace(s[k + |r|..])
  {
    var t := TrimStart(s);
    var r := TrimEnd(t);
    var k := |s| - |t|;
    TrimStartDropsWhiteSpace(s);
    TrimEndDropsWhiteSpace(t);
    assert t == s[k..];
    assert r == s[k..k + |r|];
    assert s[k + |r|..] == t[|r|..];
    assert AllWhiteSpace(s[..k]) && AllWhiteSpace(s[k + |r|..]);
    assert 0 <= k <= |s| - |r|;
  }

  /** `trim()` yields the empty string exactly when every code unit is whitespace;
      this is the empty-input guard of the button-driven page. */
  lemma {:induction false} TrimEmptyIffBlank(s: JsString)
    ensures Trim(s) == [] <==> AllWhiteSpace(s)
  {
    var t := TrimStart(s);
    if Trim(s) == [] {
      TrimEndDropsWhiteSpace(t);
      assert AllWhiteSpace(t[0..]);
      assert t == [];
      TrimStartDropsWhiteSpace(s);
      assert s[..|s|] == s;
    }
  }

  /** Trimming an already trimmed string changes nothing. */
  lemma {:induction false} TrimIdempotent(s: JsString)
    ensures Trim(Trim(s)) == Trim(s)
  {
    var r := Trim(s);
    if r != [] {
      assert TrimStart(r) == r;
      assert TrimEnd(r) == r;
    }
  }
}
