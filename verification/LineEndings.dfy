/**
 Line-ending normalisation, its two inverses, and the characters both sides of
 the chunk/reconstruct pair agree on.  `Replace` is the left-to-right,
 non-overlapping string replacement of Python.
 */
module LineEndings {

  /** The whitespace characters of `str.strip` and of `\s`. */
  predicate IsSpace(c: char) {
    var n := c as int;
    9 <= n <= 13 || 28 <= n <= 32 || n == 0x85 || n == 0xA0 || n == 0x1680 ||
    0x2000 <= n <= 0x200A || n == 0x2028 || n == 0x2029 || n == 0x202F || n == 0x205F || n == 0x3000
  }

  /** True when stripping `s` leaves nothing. */
  predicate Blank(s: string) {
    forall i | 0 <= i < |s| :: IsSpace(s[i])
  }

  function Replace(s: string, pat: string, rep: string): string
    requires pat != ""
    decreases |s|
  {
    if s == "" then ""
    else if pat <= s then rep + Replace(s[|pat|..], pat, rep)
    else [s[0]] + Replace(s[1..], pat, rep)
  }

  function Normalize(s: string): string {
    Replace(Replace(s, "\r\n", "\n"), "\r", "\n")
  }

  function ToCrlf(s: string): string {
    Replace(s, "\n", "\r\n")
  }

  function ToCr(s: string): string {
    Replace(s, "\n", "\r")
  }

  /** At index `i`, a CR is followed by LF and an LF is preceded by CR. */
  predicate CrlfAt(s: string, i: nat)
    requires i < |s|
  {
    (s[i] == '\r' ==> i + 1 < |s| && s[i + 1] == '\n') && (s[i] == '\n' ==> 0 < i && s[i - 1] == '\r')
  }

  /** Every line ends in CRLF: no bare CR and no bare LF. */
  ghost predicate UniformCrlf(s: string) {
    forall i | 0 <= i < |s| :: CrlfAt(s, i)
  }

  /** Every line ends in CR alone. */
  ghost predicate UniformCr(s: string) {
    '\n' !in s
  }

  // ----- one-pass view of Normalize -----

  /** Normalisation in a single pass: CRLF, CR and LF each become one LF. */
  function OnePass(s: string): string
    decreases |s|
  {
    if s == "" then ""
    else if s[0] == '\r' then "\n" + OnePass(if |s| > 1 && s[1] == '\n' then s[2..] else s[1..])
    else [s[0]] + OnePass(s[1..])
  }

  /** Replacing CRLF first and CR second is one left-to-right pass. */
  lemma {:induction false} NormalizeIsOnePass(s: string)
    ensures Normalize(s) == OnePass(s)
    decreases |s|
  {
    assert "\r\n" <= s <==> |s| > 1 && s[0] == '\r' && s[1] == '\n';
    if s == "" {
    } else if "\r\n" <= s {
      NormalizeIsOnePass(s[2..]);
      ReplaceCons('\n', Replace(s[2..], "\r\n", "\n"), "\r", "\n");
    } else {
      NormalizeIsOnePass(s[1..]);
      ReplaceCons(s[0], Replace(s[1..], "\r\n", "\n"), "\r", "\n");
    }
  }

  lemma ReplaceCons(c: char, s: string, pat: string, rep: string)
    requires |pat| == 1
    ensures Replace([c] + s, pat, rep) == (if c == pat[0] then rep else [c]) + Replace(s, pat, rep)
  {
    assert ([c] + s)[1..] == s;
    assert pat <= [c] + s <==> c == pat[0];
  }

  /** No CR survives normalisation, and normalisation changes exactly the texts holding a CR. */
  lemma {:induction false} NormalizeRemovesCr(s: string)
    ensures '\r' !in Normalize(s)
    ensures Normalize(s) == s <==> '\r' !in s
  {
    NormalizeIsOnePass(s);
    OnePassRemovesCr(s);
  }

  lemma {:induction false} OnePassRemovesCr(s: string)
    ensures '\r' !in OnePass(s)
    ensures '\r' !in s ==> OnePass(s) == s
    decreases |s|
  {
    if s == "" {
    } else if s[0] == '\r' {
      OnePassRemovesCr(if |s| > 1 && s[1] == '\n' then s[2..] else s[1..]);
    } else {
      OnePassRemovesCr(s[1..]);
      assert '\r' !in s ==> '\r' !in s[1..];
    }
  }

  /** Normalising keeps blankness: CR, LF and CRLF are all whitespace. */
  lemma {:induction false} NormalizeKeepsBlank(s: string)
    ensures Blank(Normalize(s)) <==> Blank(s)
    ensures Normalize(s) == "" <==> s == ""
  {
    NormalizeIsOnePass(s);
    OnePassKeepsBlank(s);
  }

  lemma BlankCons(s: string)
    requires s != ""
    ensures Blank(s) <==> IsSpace(s[0]) && Blank(s[1..])
  {
    if IsSpace(s[0]) && Blank(s[1..]) {
      forall i | 0 <= i < |s| ensures IsSpace(s[i]) {
        if i > 0 { assert s[i] == s[1..][i - 1]; }
      }
    }
  }

  lemma {:induction false} OnePassKeepsBlank(s: string)
    ensures Blank(OnePass(s)) <==> Blank(s)
    ensures OnePass(s) == "" <==> s == ""
    decreases |s|
  {
    if s != "" {
      BlankCons(s);
      BlankCons(OnePass(s));
      if s[0] == '\r' && |s| > 1 && s[1] == '\n' {
        BlankCons(s[1..]);
        assert s[1..][1..] == s[2..];
        OnePassKeepsBlank(s[2..]);
      } else {
        OnePassKeepsBlank(s[1..]);
      }
    }
  }

  // ----- which line endings the two variants restore -----

  /** Writing CRLF for every LF restores exactly the texts whose line endings are uniformly CRLF. */
  lemma {:induction false} CrlfRestores(s: string)
    ensures ToCrlf(Normalize(s)) == s <==> UniformCrlf(s)
    decreases |s|
  {
    NormalizeIsOnePass(s);
    OnePassToCrlf(s);
  }

  lemma UniformPair(t: string)
    ensures UniformCrlf("\r\n" + t) <==> UniformCrlf(t)
  {
    var s := "\r\n" + t;
    assert CrlfAt(s, 0) && CrlfAt(s, 1);
    forall i | 0 <= i < |t| ensures CrlfAt(t, i) <==> CrlfAt(s, i + 2) {
      assert t[i] == s[i + 2];
    }
    if UniformCrlf(t) {
      forall i | 2 <= i < |s| ensures CrlfAt(s, i) { assert CrlfAt(t, i - 2); }
    }
  }

  lemma UniformCons(c: char, t: string)
    requires c != '\r' && c != '\n'
    ensures UniformCrlf([c] + t) <==> UniformCrlf(t)
  {
    var s := [c] + t;
    forall i | 0 <= i < |t| ensures CrlfAt(t, i) <==> CrlfAt(s, i + 1) {
      assert t[i] == s[i + 1];
    }
    if UniformCrlf(t) {
      forall i | 1 <= i < |s| ensures CrlfAt(s, i) { assert CrlfAt(t, i - 1); }
    }
  }

  lemma {:induction false} OnePassToCrlf(s: string)
    ensures ToCrlf(OnePass(s)) == s <==> UniformCrlf(s)
    decreases |s|
  {
    if s == "" {
    } else if s[0] == '\r' && |s| > 1 && s[1] == '\n' {
      OnePassToCrlf(s[2..]);
      ReplaceCons('\n', OnePass(s[2..]), "\n", "\r\n");
      assert s == "\r\n" + s[2..];
      UniformPair(s[2..]);
    } else if s[0] == '\r' {
      ReplaceCons('\n', OnePass(s[1..]), "\n", "\r\n");
      assert !CrlfAt(s, 0) && ToCrlf(OnePass(s))[1] == '\n';
    } else {
      OnePassToCrlf(s[1..]);
      ReplaceCons(s[0], OnePass(s[1..]), "\n", "\r\n");
      assert s == [s[0]] + s[1..];
      if s[0] == '\n' {
        assert !CrlfAt(s, 0) && ToCrlf(OnePass(s))[0] == '\r';
      } else {
        UniformCons(s[0], s[1..]);
      }
    }
  }

  /** Writing CR for every LF restores exactly the texts that hold no LF. */
  lemma {:induction false} CrRestores(s: string)
    ensures ToCr(Normalize(s)) == s <==> UniformCr(s)
  {
    NormalizeIsOnePass(s);
    OnePassToCr(s);
  }

  lemma {:induction false} OnePassToCr(s: string)
    ensures ToCr(OnePass(s)) == s <==> UniformCr(s)
    ensures '\n' !in ToCr(OnePass(s))
    decreases |s|
  {
    if s == "" {
    } else if s[0] == '\r' && |s| > 1 && s[1] == '\n' {
      OnePassToCr(s[2..]);
      ReplaceCons('\n', OnePass(s[2..]), "\n", "\r");
    } else {
      var t := s[1..];
      OnePassToCr(t);
      ReplaceCons(if s[0] == '\r' then '\n' else s[0], OnePass(t), "\n", "\r");
      assert s == [s[0]] + t;
    }
  }

  /** Both variants of a text without CR normalise back to it. */
  lemma {:induction false} VariantsNormalizeBack(t: string)
    requires '\r' !in t
    ensures Normalize(ToCrlf(t)) == t && Normalize(ToCr(t)) == t
  {
    NormalizeIsOnePass(ToCrlf(t));
    NormalizeIsOnePass(ToCr(t));
    VariantsPassBack(t);
  }

  lemma {:induction false} VariantsPassBack(t: string)
    requires '\r' !in t
    ensures OnePass(ToCrlf(t)) == t && OnePass(ToCr(t)) == t
    ensures '\n' !in ToCr(t) && (ToCrlf(t) != "" ==> ToCrlf(t)[0] != '\n')
  {
    if t != "" {
      var c, rest := t[0], t[1..];
      assert t == [c] + rest && c in t && forall x | x in rest :: x in t;
      VariantsPassBack(rest);
      ReplaceCons(c, rest, "\n", "\r\n");
      ReplaceCons(c, rest, "\n", "\r");
      if c == '\n' {
        assert ToCrlf(t)[2..] == ToCrlf(rest) && ToCr(t)[1..] == ToCr(rest);
      } else {
        assert ToCrlf(t)[1..] == ToCrlf(rest) && ToCr(t)[1..] == ToCr(rest);
      }
    }
  }
}
