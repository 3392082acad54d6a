/**
  The skill normaliser of the job matcher: a raw skill cell such as
  "polars, SQL" is split on every literal comma and each piece is stripped
  of surrounding whitespace. Empty pieces are kept, nothing is deduplicated,
  lower-cased or otherwise changed, so two tokens compare equal only when
  they are the same string after stripping.

  Splitting follows the semantics of a plain string split on ",": a string
  with n commas yields n + 1 pieces, and the empty string yields one empty
  piece. Stripping removes the characters with the Unicode White_Space
  property, which is what a strip with no explicit character set removes.
 */
module SkillText {

  /** The separator between skills in a raw skill cell. */
  const Comma: char := ','

  /** The Unicode White_Space characters. */
  predicate IsWhitespace(c: char) {
    var n := c as int;
    || (0x09 <= n <= 0x0D)
    || n == 0x20
    || n == 0x85
    || n == 0xA0
    || n == 0x1680
    || (0x2000 <= n <= 0x200A)
    || n == 0x2028
    || n == 0x2029
    || n == 0x202F
    || n == 0x205F
    || n == 0x3000
  }

  predicate AllWhitespace(t: string) {
    forall k :: 0 <= k < |t| ==> IsWhitespace(t[k])
  }

  /** A token with no whitespace at either end. */
  predicate Trimmed(t: string) {
    |t| == 0 || (!IsWhitespace(t[0]) && !IsWhitespace(t[|t| - 1]))
  }

  /** Number of occurrences of `c` in `s`. */
  function CountChar(s: string, c: char): nat {
    if |s| == 0 then 0 else (if s[0] == c then 1 else 0) + CountChar(s[1..], c)
  }

  // ---------------------------------------------------------------------------
  // Splitting on commas
  // ---------------------------------------------------------------------------

  /** Splits `s` at every comma; the pieces never contain a comma and there is
      one more piece than there are commas, so empty pieces are kept. */
  function Split(s: string): (pieces: seq<string>)
    ensures |pieces| == CountChar(s, Comma) + 1
    ensures forall i :: 0 <= i < |pieces| ==> Comma !in pieces[i]
    decreases |s|
  {
    if |s| == 0 then [""]
    else
      var rest := Split(s[1..]);
      if s[0] == Comma then [""] + rest
      else [[s[0]] + rest[0]] + rest[1..]
  }

  /** Glues pieces back together with a comma between neighbours. */
  function Join(pieces: seq<string>): string {
    if |pieces| == 0 then ""
    else if |pieces| == 1 then pieces[0]
    else pieces[0] + [Comma] + Join(pieces[1..])
  }

  /** Splitting loses nothing: the pieces glued back with commas give the input. */
  lemma {:induction false} JoinSplit(s: string)
    ensures Join(Split(s)) == s
    decreases |s|
  {
    if |s| > 0 {
      var rest := Split(s[1..]);
      JoinSplit(s[1..]);
      if s[0] == Comma {
        assert Split(s) == [""] + rest;
        assert Join(Split(s)) == "" + [Comma] + Join(rest);
        assert s == [s[0]] + s[1..];
      } else {
        var pieces := [[s[0]] + rest[0]] + rest[1..];
        assert Split(s) == pieces;
        if |rest| == 1 {
          assert Join(pieces) == [s[0]] + rest[0];
        } else {
          assert pieces[1..] == rest[1..];
          assert Join(pieces) == [s[0]] + rest[0] + [Comma] + Join(rest[1..]);
          assert Join(rest) == rest[0] + [Comma] + Join(rest[1..]);
        }
        assert s == [s[0]] + s[1..];
      }
    }
  }

  /** A comma-free prefix followed by a comma becomes one whole piece. */
  lemma {:induction false} SplitAfterPiece(p: string, t: string)
    requires Comma !in p
    ensures Split(p + [Comma] + t) == [p] + Split(t)
    decreases |p|
  {
    if |p| == 0 {
      assert p + [Comma] + t == [Comma] + t;
      assert ([Comma] + t)[1..] == t;
    } else {
      var u := p + [Comma] + t;
      assert u[0] == p[0] && u[1..] == p[1..] + [Comma] + t;
      SplitAfterPiece(p[1..], t);
      assert [p[0]] + p[1..] == p;
    }
  }

  /** A comma-free string is a single piece. */
  lemma {:induction false} SplitNoComma(p: string)
    requires Comma !in p
    ensures Split(p) == [p]
    decreases |p|
  {
    if |p| > 0 {
      SplitNoComma(p[1..]);
      assert [p[0]] + p[1..] == p;
    }
  }

  /** Gluing comma-free pieces and splitting again gives the pieces back. */
  lemma {:induction false} SplitJoin(pieces: seq<string>)
    requires |pieces| >= 1
    requires forall i :: 0 <= i < |pieces| ==> Comma !in pieces[i]
    ensures Split(Join(pieces)) == pieces
    decreases |pieces|
  {
    if |pieces| == 1 {
      SplitNoComma(pieces[0]);
    } else {
      SplitJoin(pieces[1..]);
      SplitAfterPiece(pieces[0], Join(pieces[1..]));
      assert [pieces[0]] + pieces[1..] == pieces;
    }
  }

  // ---------------------------------------------------------------------------
  // Stripping whitespace
  // ---------------------------------------------------------------------------

  /** Drops leading whitespace: the result is a suffix of `t` preceded only by
      whitespace, and it does not itself start with whitespace. */
  function TrimStart(t: string): (r: string)
    ensures |r| <= |t| && r == t[|t| - |r|..]
    ensures AllWhitespace(t[..|t| - |r|])
    ensures |r| == 0 || !IsWhitespace(r[0])
    decreases |t|
  {
    if |t| > 0 && IsWhitespace(t[0]) then
      var r := TrimStart(t[1..]);
      assert t[..|t| - |r|] == [t[0]] + t[1..][..|t| - 1 - |r|];
      r
    else t
  }

  /** Drops trailing whitespace: the result is a prefix of `t` followed only by
      whitespace, and it does not itself end with whitespace. */
  function TrimEnd(t: string): (r: string)
    ensures |r| <= |t| && r == t[..|r|]
    ensures AllWhitespace(t[|r|..])
    ensures |r| == 0 || !IsWhitespace(r[|r| - 1])
    decreases |t|
  {
    if |t| > 0 && IsWhitespace(t[|t| - 1]) then
      var r := TrimEnd(t[..|t| - 1]);
      assert t[|r|..] == t[..|t| - 1][|r|..] + [t[|t| - 1]];
      r
    else t
  }

  /** Strips whitespace at both ends: the result has no whitespace at either
      end and is what remains of `t` once a whitespace-only prefix and a
      whitespace-only suffix are cut off. */
  function Strip(t: string): (r: string)
    ensures Trimmed(r)
    ensures |r| <= |t|
    ensures exists i :: 0 <= i <= |t| - |r| && t[i..i + |r|] == r
                        && AllWhitespace(t[..i]) && AllWhitespace(t[i + |r|..])
  {
    var s := TrimStart(t);
    var r := TrimEnd(s);
    var i := |t| - |s|;
    assert |r| > 0 ==> r[0] == s[0];
    assert t[i..i + |r|] == s[..|r|];
    assert t[i + |r|..] == s[|r|..];
    assert 0 <= i <= |t| - |r| && t[i..i + |r|] == r && AllWhitespace(t[..i]) && AllWhitespace(t[i + |r|..]);
    r
  }

  lemma {:induction false} TrimStartSkipsWhitespace(w: string, u: string)
    requires AllWhitespace(w)
    ensures TrimStart(w + u) == TrimStart(u)
    decreases |w|
  {
    if |w| > 0 {
      assert (w + u)[0] == w[0] && IsWhitespace(w[0]);
      assert (w + u)[1..] == w[1..] + u;
      TrimStartSkipsWhitespace(w[1..], u);
    } else {
      assert w + u == u;
    }
  }

  lemma {:induction false} TrimEndSkipsWhitespace(u: string, w: string)
    requires AllWhitespace(w)
    ensures TrimEnd(u + w) == TrimEnd(u)
    decreases |w|
  {
    if |w| > 0 {
      var v := w[..|w| - 1];
      assert (u + w)[..|u + w| - 1] == u + v;
      TrimEndSkipsWhitespace(u, v);
    } else {
      assert u + w == u;
    }
  }

  /** Stripping is determined by its contract: a trimmed core surrounded by
      whitespace strips to exactly that core. */
  lemma StripUnique(w1: string, core: string, w2: string)
    requires AllWhitespace(w1) && AllWhitespace(w2) && Trimmed(core)
    ensures Strip(w1 + core + w2) == core
  {
    var rest := core + w2;
    assert w1 + core + w2 == w1 + rest;
    TrimStartSkipsWhitespace(w1, rest);
    if |core| == 0 {
      assert rest == w2 + [];
      TrimStartSkipsWhitespace(w2, []);
      assert TrimStart(rest) == [];
    } else {
      assert rest[0] == core[0];
      assert TrimStart(rest) == rest;
      TrimEndSkipsWhitespace(core, w2);
      assert TrimEnd(core) == core;
    }
  }

  /** Stripping twice is stripping once. */
  lemma StripIdempotent(t: string)
    ensures Strip(Strip(t)) == Strip(t)
  {
    StripTrimmed(Strip(t));
  }

  // ---------------------------------------------------------------------------
  // The normaliser
  // ---------------------------------------------------------------------------

  /** Stripping leaves a token that is already trimmed unchanged. */
  lemma StripTrimmed(t: string)
    requires Trimmed(t)
    ensures Strip(t) == t
  {
    var e: string := [];
    StripUnique(e, t, e);
    assert e + t + e == t;
  }

  /** Splits a raw skill cell on commas and strips every piece. */
  function Normalize(raw: string): (tokens: seq<string>)
    ensures |tokens| == CountChar(raw, Comma) + 1
    ensures forall i :: 0 <= i < |tokens| ==> Trimmed(tokens[i])
  {
    var pieces := Split(raw);
    seq(|pieces|, i requires 0 <= i < |pieces| => Strip(pieces[i]))
  }

  /** The normaliser inverts gluing with commas up to stripping: the skills
      `ps[0]`, ..., `ps[n-1]` written with commas between them normalise to the
      stripped skills, one token per skill, in order. */
  lemma NormalizeJoin(ps: seq<string>)
    requires |ps| >= 1
    requires forall i :: 0 <= i < |ps| ==> Comma !in ps[i]
    ensures |Normalize(Join(ps))| == |ps|
    ensures forall i :: 0 <= i < |ps| ==> Normalize(Join(ps))[i] == Strip(ps[i])
  {
    SplitJoin(ps);
  }

  /** Surrounding whitespace does not change a token: " SQL " and "SQL" both
      normalise to ["SQL"]. */
  lemma WhitespaceTolerance(w1: string, core: string, w2: string)
    requires AllWhitespace(w1) && AllWhitespace(w2) && Trimmed(core)
    requires Comma !in core && Comma !in w1 && Comma !in w2
    ensures Normalize(w1 + core + w2) == [core]
  {
    var raw := w1 + core + w2;
    assert Comma !in raw by {
      forall k | 0 <= k < |raw| ensures raw[k] != Comma {
        if k < |w1| { assert raw[k] == w1[k]; }
        else if k < |w1| + |core| { assert raw[k] == core[k - |w1|]; }
        else { assert raw[k] == w2[k - |w1| - |core|]; }
      }
    }
    SplitNoComma(raw);
    StripUnique(w1, core, w2);
  }

  /** A trailing comma adds an empty token rather than being ignored. */
  lemma TrailingCommaKeepsEmptyToken(ps: seq<string>)
    requires |ps| >= 1
    requires forall i :: 0 <= i < |ps| ==> Comma !in ps[i]
    ensures Normalize(Join(ps) + [Comma]) == Normalize(Join(ps)) + [""]
  {
    var qs := ps + [""];
    forall i | 0 <= i < |qs| ensures Comma !in qs[i] {
      if i < |ps| { assert qs[i] == ps[i]; }
    }
    JoinSnoc(ps, "");
    assert Join(ps) + [Comma] + "" == Join(ps) + [Comma];
    SplitJoin(qs);
    SplitJoin(ps);
    var a := Normalize(Join(ps) + [Comma]);
    var b := Normalize(Join(ps)) + [""];
    assert |a| == |qs| == |b|;
    forall i | 0 <= i < |a| ensures a[i] == b[i] {
      if i == |ps| {
        StripUnique("", "", "");
        assert "" + "" + "" == "";
      }
    }
  }

  lemma {:induction false} JoinSnoc(ps: seq<string>, p: string)
    requires |ps| >= 1
    ensures Join(ps + [p]) == Join(ps) + [Comma] + p
    decreases |ps|
  {
    if |ps| == 1 {
      assert (ps + [p])[1..] == [p];
    } else {
      assert (ps + [p])[1..] == ps[1..] + [p];
      JoinSnoc(ps[1..], p);
    }
  }
}
