/** Text primitives the substitution protocol relies on: Rust's `str::trim`,
    ASCII case folding, and substring containment. */
module Text {

  /** Rust's `char::is_whitespace`: the Unicode White_Space property. */
  predicate IsWhitespace(c: char) {
    || ('\t' <= c <= '\r')
    || c == ' '
    || c == '\U{0085}'
    || c == '\U{00A0}'
    || c == '\U{1680}'
    || ('\U{2000}' <= c <= '\U{200A}')
    || c == '\U{2028}'
    || c == '\U{2029}'
    || c == '\U{202F}'
    || c == '\U{205F}'
    || c == '\U{3000}'
  }

  predicate AllWhitespace(s: string) {
    forall i :: 0 <= i < |s| ==> IsWhitespace(s[i])
  }

  /** Neither the first nor the last character is whitespace. */
  predicate NoEdgeWhitespace(s: string) {
    |s| == 0 || (!IsWhitespace(s[0]) && !IsWhitespace(s[|s| - 1]))
  }

  /** `s` is `t` with whitespace padding: `t` starts at offset `i`, and
      everything before and after it is whitespace. */
  predicate PaddedAt(s: string, t: string, i: int) {
    && 0 <= i
    && i + |t| <= |s|
    && s[i..i + |t|] == t
    && AllWhitespace(s[..i])
    && AllWhitespace(s[i + |t|..])
  }

  /** Rust's `str::trim_start`. */
  function TrimStart(s: string): (r: string)
    ensures |r| <= |s| && r == s[|s| - |r|..]
    ensures AllWhitespace(s[..|s| - |r|])
    ensures |r| > 0 ==> !IsWhitespace(r[0])
    decreases |s|
  {
    if |s| > 0 && IsWhitespace(s[0]) then TrimStart(s[1..]) else s
  }

  /** Rust's `str::trim_end`. */
  function TrimEnd(s: string): (r: string)
    ensures |r| <= |s| && r == s[..|r|]
    ensures AllWhitespace(s[|r|..])
    ensures |r| > 0 ==> !IsWhitespace(r[|r| - 1])
    decreases |s|
  {
    if |s| > 0 && IsWhitespace(s[|s| - 1]) then TrimEnd(s[..|s| - 1]) else s
  }

  /** Rust's `str::trim`: the text with surrounding whitespace removed. */
  function Trim(s: string): (r: string)
    ensures NoEdgeWhitespace(r)
    ensures PaddedAt(s, r, |s| - |TrimStart(s)|)
  {
    var t := TrimStart(s);
    var r := TrimEnd(t);
    StripBothSides(s, t, r);
    r
  }

  /** Stripping leading whitespace to get `t`, then trailing whitespace
      to get `r`, leaves `r` padded inside `s`. */
  lemma StripBothSides(s: string, t: string, r: string)
    requires |t| <= |s| && t == s[|s| - |t|..] && AllWhitespace(s[..|s| - |t|])
    requires |t| > 0 ==> !IsWhitespace(t[0])
    requires |r| <= |t| && r == t[..|r|] && AllWhitespace(t[|r|..])
    requires |r| > 0 ==> !IsWhitespace(r[|r| - 1])
    ensures NoEdgeWhitespace(r)
    ensures PaddedAt(s, r, |s| - |t|)
  {
    var i := |s| - |t|;
    assert s[i..i + |r|] == r;
    assert s[i + |r|..] == t[|r|..];
    assert |r| > 0 ==> r[0] == t[0];
  }

  lemma {:induction false} TrimStartSkipsPadding(w: string, x: string)
    requires AllWhitespace(w)
    requires |x| == 0 || !IsWhitespace(x[0])
    ensures TrimStart(w + x) == x
    decreases |w|
  {
    if |w| > 0 {
      assert (w + x)[1..] == w[1..] + x;
      TrimStartSkipsPadding(w[1..], x);
    } else {
      assert w + x == x;
    }
  }

  lemma {:induction false} TrimEndSkipsPadding(x: string, w: string)
    requires AllWhitespace(w)
    requires |x| == 0 || !IsWhitespace(x[|x| - 1])
    ensures TrimEnd(x + w) == x
    decreases |w|
  {
    if |w| > 0 {
      assert (x + w)[..|x + w| - 1] == x + w[..|w| - 1];
      TrimEndSkipsPadding(x, w[..|w| - 1]);
    } else {
      assert x + w == x;
    }
  }

  /** Trimming recovers any text that carries no whitespace at its edges
      from any whitespace padding around it; in particular, trimming is
      idempotent and leaves already-trimmed text alone. */
  lemma {:induction false} TrimOfPadded(w1: string, t: string, w2: string)
    requires AllWhitespace(w1) && AllWhitespace(w2)
    requires NoEdgeWhitespace(t)
    ensures Trim(w1 + t + w2) == t
  {
    if |t| == 0 {
      assert w1 + t + w2 == (w1 + w2) + [];
      assert AllWhitespace(w1 + w2);
      TrimStartSkipsPadding(w1 + w2, []);
    } else {
      assert w1 + t + w2 == w1 + (t + w2);
      TrimStartSkipsPadding(w1, t + w2);
      TrimEndSkipsPadding(t, w2);
    }
  }

  lemma TrimIdempotent(s: string)
    ensures Trim(Trim(s)) == Trim(s)
  {
    assert Trim(s) == [] + Trim(s) + [];
    TrimOfPadded([], Trim(s), []);
  }

  // ASCII case folding (the Unicode mappings of `to_uppercase` and
  // `to_lowercase` are not modelled).

  function UpperChar(c: char): (u: char) {
    if 'a' <= c <= 'z' then (c as int - 32) as char else c
  }

  function LowerChar(c: char): (l: char) {
    if 'A' <= c <= 'Z' then (c as int + 32) as char else c
  }

  function Upper(s: string): (u: string) {
    seq(|s|, i requires 0 <= i < |s| => UpperChar(s[i]))
  }

  function Lower(s: string): (l: string) {
    seq(|s|, i requires 0 <= i < |s| => LowerChar(s[i]))
  }

  lemma UpperIdempotent(s: string)
    ensures Upper(Upper(s)) == Upper(s)
  {
  }

  lemma UpperSlice(s: string, i: int, j: int)
    requires 0 <= i <= j <= |s|
    ensures Upper(s[i..j]) == Upper(s)[i..j]
  {
  }

  lemma UpperDrop(s: string, k: int)
    requires 0 <= k <= |s|
    ensures Upper(s[k..]) == Upper(s)[k..]
  {
  }

  lemma UpperConcat(a: string, b: string)
    ensures Upper(a + b) == Upper(a) + Upper(b)
  {
  }

  lemma LowerSlice(s: string, i: int, j: int)
    requires 0 <= i <= j <= |s|
    ensures Lower(s[i..j]) == Lower(s)[i..j]
  {
  }

  lemma LowerKeepsWhitespace(c: char)
    ensures IsWhitespace(LowerChar(c)) == IsWhitespace(c)
  {
  }

  /** Lower-casing never creates or destroys whitespace, so it commutes
      with trimming. */
  lemma {:induction false} TrimStartLower(s: string)
    ensures TrimStart(Lower(s)) == Lower(TrimStart(s))
    decreases |s|
  {
    if |s| > 0 {
      var ls := Lower(s);
      LowerKeepsWhitespace(s[0]);
      assert ls[0] == LowerChar(s[0]);
      if IsWhitespace(s[0]) {
        assert ls[1..] == Lower(s[1..]) by {
          LowerSlice(s, 1, |s|);
          assert s[1..|s|] == s[1..] && ls[1..|s|] == ls[1..];
        }
        TrimStartLower(s[1..]);
        assert TrimStart(ls) == TrimStart(ls[1..]);
      } else {
        assert TrimStart(ls) == ls;
      }
    }
  }

  lemma {:induction false} TrimEndLower(s: string)
    ensures TrimEnd(Lower(s)) == Lower(TrimEnd(s))
    decreases |s|
  {
    if |s| > 0 {
      var ls := Lower(s);
      var n := |s| - 1;
      LowerKeepsWhitespace(s[n]);
      assert ls[n] == LowerChar(s[n]);
      if IsWhitespace(s[n]) {
        assert ls[..n] == Lower(s[..n]) by {
          LowerSlice(s, 0, n);
          assert s[0..n] == s[..n] && ls[0..n] == ls[..n];
        }
        TrimEndLower(s[..n]);
        assert TrimEnd(ls) == TrimEnd(ls[..n]);
      } else {
        assert TrimEnd(ls) == ls;
      }
    }
  }

  lemma TrimLower(s: string)
    ensures Trim(Lower(s)) == Lower(Trim(s))
  {
    TrimStartLower(s);
    TrimEndLower(TrimStart(s));
  }

  /** Rust's `str::contains` for a string pattern: `q` occurs in `t`. */
  predicate Contains(t: string, q: string)
    decreases |t|
  {
    |q| <= |t| && (t[..|q|] == q || Contains(t[1..], q))
  }

  /** `q` occurs in `t` starting at offset `i`. */
  predicate OccursAt(t: string, q: string, i: int) {
    0 <= i <= |t| - |q| && t[i..i + |q|] == q
  }

  /** Containment means an occurrence at some offset. */
  lemma {:induction false} ContainsIffOccurs(t: string, q: string)
    ensures Contains(t, q) <==> exists i :: OccursAt(t, q, i)
    decreases |t|
  {
    if |q| <= |t| {
      if t[..|q|] == q {
        assert t[0..0 + |q|] == q;
        assert OccursAt(t, q, 0);
      } else {
        var rest := t[1..];
        ContainsIffOccurs(rest, q);
        if Contains(rest, q) {
          var j :| OccursAt(rest, q, j);
          assert t[j + 1..j + 1 + |q|] == rest[j..j + |q|];
          assert OccursAt(t, q, j + 1);
        }
        if exists i :: OccursAt(t, q, i) {
          var i :| OccursAt(t, q, i);
          assert i != 0 by {
            assert t[0..|q|] == t[..|q|];
          }
          assert rest[i - 1..i - 1 + |q|] == t[i..i + |q|];
          assert OccursAt(rest, q, i - 1);
        }
      }
    }
  }

  lemma ContainsAtStart(q: string, x: string)
    ensures Contains(q + x, q)
  {
    assert (q + x)[..|q|] == q;
  }

  lemma {:induction false} ContainsAppendLeft(a: string, b: string, q: string)
    requires Contains(b, q)
    ensures Contains(a + b, q)
    decreases |a|
  {
    if |a| == 0 {
      assert a + b == b;
    } else {
      assert (a + b)[1..] == a[1..] + b;
      ContainsAppendLeft(a[1..], b, q);
    }
  }

  lemma {:induction false} ContainsAppendRight(a: string, b: string, q: string)
    requires Contains(a, q)
    ensures Contains(a + b, q)
    decreases |a|
  {
    if a[..|q|] == q {
      assert (a + b)[..|q|] == q;
    } else {
      assert (a + b)[1..] == a[1..] + b;
      ContainsAppendRight(a[1..], b, q);
    }
  }
}
