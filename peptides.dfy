/** MaxQuant modified sequences as token strings.

    A modified sequence such as `_(Acetyl (Protein N-term))AS(Phospho (STY))M(Oxidation (M))K_`
    is the rendering of a token list: terminus underscores, residue letters and
    the three modification annotations the pipeline knows about. The token view
    is what the string rewrites of the pipeline are proved against. */
module Peptides {
  import opened Strings

  const PHOSPHO: string := "(Phospho (STY))"
  const ACETYL: string := "(Acetyl (Protein N-term))"
  const OXIDATION: string := "(Oxidation (M))"

  datatype Token = Terminus | Residue(aa: char) | Phospho | Acetyl | Oxidation

  predicate IsResidueLetter(c: char) {
    'A' <= c <= 'Z'
  }

  /** The residues a phospho group can sit on. */
  predicate IsAcceptor(c: char) {
    c == 'S' || c == 'T' || c == 'Y'
  }

  /** Residues are capital letters and every phospho annotation directly follows an S, T or Y. */
  ghost predicate WellFormed(ts: seq<Token>) {
    (forall i :: 0 <= i < |ts| && ts[i].Residue? ==> IsResidueLetter(ts[i].aa)) &&
    (ts != [] ==> !ts[0].Phospho?) &&
    (forall i :: 0 <= i < |ts| - 1 && ts[i + 1].Phospho? ==> ts[i].Residue? && IsAcceptor(ts[i].aa))
  }

  function Text(t: Token): (w: string)
    ensures |w| >= 1
  {
    match t
    case Terminus => "_"
    case Residue(c) => [c]
    case Phospho => PHOSPHO
    case Acetyl => ACETYL
    case Oxidation => OXIDATION
  }

  /** The MaxQuant text of a token list. */
  function Render(ts: seq<Token>): string
    decreases |ts|
  {
    if ts == [] then [] else Text(ts[0]) + Render(ts[1..])
  }

  /** The token list without the tokens equal to `t`. */
  function Drop(ts: seq<Token>, t: Token): (r: seq<Token>)
    ensures forall i :: 0 <= i < |r| ==> r[i] != t
    ensures forall u :: u in r <==> u in ts && u != t
    decreases |ts|
  {
    if ts == [] then []
    else if ts[0] == t then Drop(ts[1..], t)
    else
      assert forall u :: u in ts <==> u == ts[0] || u in ts[1..];
      [ts[0]] + Drop(ts[1..], t)
  }

  /** The plain amino-acid sequence (MaxQuant's `Sequence` column). */
  function Residues(ts: seq<Token>): string
    decreases |ts|
  {
    if ts == [] then []
    else (if ts[0].Residue? then [ts[0].aa] else []) + Residues(ts[1..])
  }

  /** Renders every phosphorylated residue as `f(residue)` and everything else as text. */
  function RenderSites(ts: seq<Token>, f: char -> string): string
    decreases |ts|
  {
    if ts == [] then []
    else if |ts| >= 2 && ts[0].Residue? && ts[1].Phospho? then f(ts[0].aa) + RenderSites(ts[2..], f)
    else Text(ts[0]) + RenderSites(ts[1..], f)
  }

  function LowerSite(c: char): string {
    [LowerChar(c)]
  }

  /** The text with every phosphorylated residue lower-cased and its annotation removed. */
  function Lowered(ts: seq<Token>): string {
    RenderSites(ts, LowerSite)
  }

  function CountPhospho(ts: seq<Token>): nat
    decreases |ts|
  {
    if ts == [] then 0 else (if ts[0].Phospho? then 1 else 0) + CountPhospho(ts[1..])
  }

  predicate NoAcetylOxidation(ts: seq<Token>) {
    Acetyl !in ts && Oxidation !in ts
  }

  // ---------------------------------------------------------------------------
  // Basic facts

  lemma RenderCons(t: Token, ts: seq<Token>)
    ensures Render([t] + ts) == Text(t) + Render(ts)
  {
    assert ([t] + ts)[1..] == ts;
  }

  lemma {:induction false} RenderAppend(a: seq<Token>, b: seq<Token>)
    ensures Render(a + b) == Render(a) + Render(b)
    decreases |a|
  {
    if a == [] {
      assert a + b == b;
    } else {
      assert (a + b)[1..] == a[1..] + b;
      RenderAppend(a[1..], b);
    }
  }

  lemma WellFormedTail(ts: seq<Token>, k: nat)
    requires WellFormed(ts) && k <= |ts|
    requires k < |ts| ==> !ts[k].Phospho?
    ensures WellFormed(ts[k..])
  {
    var r := ts[k..];
    forall i | 0 <= i < |r| && r[i].Residue? ensures IsResidueLetter(r[i].aa) {
      assert r[i] == ts[k + i];
    }
    forall i | 0 <= i < |r| - 1 && r[i + 1].Phospho? ensures r[i].Residue? && IsAcceptor(r[i].aa) {
      assert r[i] == ts[k + i] && r[i + 1] == ts[k + i + 1];
    }
  }

  /** A well-formed list never starts with a phospho annotation. */
  lemma WellFormedHead(ts: seq<Token>)
    requires WellFormed(ts) && ts != []
    ensures !ts[0].Phospho?
    ensures ts[0].Residue? ==> IsResidueLetter(ts[0].aa)
  {
  }

  // ---------------------------------------------------------------------------
  // Which annotation texts can be mistaken for which

  lemma AnnotationLengths()
    ensures |PHOSPHO| == 15 && |ACETYL| == 25 && |OXIDATION| == 15
  {
  }

  lemma AnnotationHeads()
    ensures PHOSPHO[0] == '(' && PHOSPHO[1] == 'P' && PHOSPHO[9] == '(' && PHOSPHO[10] == 'S'
    ensures ACETYL[0] == '(' && ACETYL[1] == 'A' && ACETYL[8] == '(' && ACETYL[9] == 'P' && ACETYL[10] == 'r'
    ensures OXIDATION[0] == '(' && OXIDATION[1] == 'O' && OXIDATION[11] == '(' && OXIDATION[12] == 'M'
  {
  }

  lemma AnnotationParentheses()
    ensures forall i :: 0 <= i < |PHOSPHO| && PHOSPHO[i] == '(' ==> i == 0 || i == 9
    ensures forall i :: 0 <= i < |ACETYL| && ACETYL[i] == '(' ==> i == 0 || i == 8
    ensures forall i :: 0 <= i < |OXIDATION| && OXIDATION[i] == '(' ==> i == 0 || i == 11
  {
  }

  lemma AnnotationLetters()
    ensures '_' !in PHOSPHO && '_' !in ACETYL && '_' !in OXIDATION
    ensures forall i :: 0 <= i < |ACETYL| ==> !IsAcceptor(ACETYL[i])
    ensures forall i :: 0 <= i < |OXIDATION| ==> !IsAcceptor(OXIDATION[i])
  {
  }

  lemma MismatchAt(u: string, p: string, k: nat)
    requires k < |u| && k < |p| && u[k] != p[k]
    ensures Mismatch(u, p)
  {
  }

  /** Text without the pattern's first character cannot hold an occurrence of it. */
  lemma BlocksWithoutHead(w: string, pat: string)
    requires pat != [] && pat[0] !in w
    ensures Blocks(w, pat)
  {
  }

  /** An annotation other than `t` blocks the text of `t` from matching inside it. */
  lemma AnnotationBlocks(u: Token, t: Token)
    requires u.Phospho? || u.Acetyl? || u.Oxidation?
    requires t.Phospho? || t.Acetyl? || t.Oxidation?
    requires u != t
    ensures Blocks(Text(u), Text(t))
  {
    AnnotationLengths();
    AnnotationHeads();
    AnnotationParentheses();
    var w, pat := Text(u), Text(t);
    forall i | 0 <= i < |w| && w[i] == pat[0] ensures Mismatch(w[i..], pat) {
      if u.Acetyl? && i == 8 && t.Phospho? {
        MismatchAt(w[i..], pat, 2);
      } else {
        MismatchAt(w[i..], pat, 1);
      }
    }
  }

  /** Each token other than `t` blocks the text of `t` from matching inside it. */
  lemma TokenBlocks(u: Token, t: Token)
    requires !t.Residue? && u != t
    requires u.Residue? ==> IsResidueLetter(u.aa)
    ensures Blocks(Text(u), Text(t))
  {
    AnnotationHeads();
    AnnotationLetters();
    if t.Terminus? || u.Terminus? || u.Residue? {
      assert Text(t)[0] !in Text(u);
      BlocksWithoutHead(Text(u), Text(t));
    } else {
      AnnotationBlocks(u, t);
    }
  }

  /** Deleting every occurrence of one annotation's text deletes exactly its tokens. */
  lemma {:induction false} ReplaceRender(ts: seq<Token>, t: Token)
    requires !t.Residue?
    requires forall i :: 0 <= i < |ts| && ts[i].Residue? ==> IsResidueLetter(ts[i].aa)
    ensures ReplaceAll(Render(ts), Text(t), "") == Render(Drop(ts, t))
    decreases |ts|
  {
    if ts != [] {
      assert forall i :: 0 <= i < |ts[1..]| && ts[1..][i].Residue? ==> IsResidueLetter(ts[1..][i].aa) by {
        forall i | 0 <= i < |ts[1..]| ensures ts[1..][i] == ts[i + 1] {}
      }
      ReplaceRender(ts[1..], t);
      if ts[0] == t {
        ReplaceAllPrefixPat(Render(ts[1..]), Text(t), "");
      } else {
        TokenBlocks(ts[0], t);
        ReplaceAllBlocked(Text(ts[0]), Render(ts[1..]), Text(t), "");
        RenderCons(ts[0], Drop(ts[1..], t));
      }
    }
  }

  lemma DropResidues(ts: seq<Token>, t: Token)
    requires !t.Residue?
    ensures Residues(Drop(ts, t)) == Residues(ts)
    ensures forall i :: 0 <= i < |ts| && ts[i].Residue? ==> ts[i] in Drop(ts, t)
  {
    if ts != [] {
      DropResidues(ts[1..], t);
      assert forall i :: 1 <= i < |ts| ==> ts[i] == ts[1..][i - 1];
    }
  }

  /** With only residues and termini left, the text is the residues and underscores. */
  lemma {:induction false} RenderBare(ts: seq<Token>)
    requires forall u :: u in ts ==> u.Residue?
    ensures Render(ts) == Residues(ts)
    decreases |ts|
  {
    if ts != [] {
      assert forall u :: u in ts[1..] ==> u in ts;
      RenderBare(ts[1..]);
    }
  }

  // ---------------------------------------------------------------------------
  // Phospho-site rewriting of the regular expression `([STY])\(Phospho \(STY\)\)`

  /** `re.sub(r'([STY])\(Phospho \(STY\)\)', f(group 1), s)`, scanning left to right. */
  function SubSites(s: string, f: char -> string): string
    decreases |s|
  {
    if s == [] then []
    else if IsAcceptor(s[0]) && StartsWith(s[1..], PHOSPHO) then f(s[0]) + SubSites(s[1 + |PHOSPHO|..], f)
    else [s[0]] + SubSites(s[1..], f)
  }

  lemma SubSitesSkipChar(c: char, s: string, f: char -> string)
    requires !IsAcceptor(c) || !StartsWith(s, PHOSPHO)
    ensures SubSites([c] + s, f) == [c] + SubSites(s, f)
  {
    assert ([c] + s)[1..] == s;
  }

  lemma {:induction false} SubSitesSkipWord(w: string, s: string, f: char -> string)
    requires forall i :: 0 <= i < |w| ==> !IsAcceptor(w[i])
    ensures SubSites(w + s, f) == w + SubSites(s, f)
    decreases |w|
  {
    if w != [] {
      assert w + s == [w[0]] + (w[1..] + s);
      SubSitesSkipChar(w[0], w[1..] + s, f);
      forall i | 0 <= i < |w[1..]| ensures !IsAcceptor(w[1..][i]) {
        assert w[1..][i] == w[i + 1];
      }
      SubSitesSkipWord(w[1..], s, f);
      assert [w[0]] + (w[1..] + SubSites(s, f)) == ([w[0]] + w[1..]) + SubSites(s, f);
      assert w == [w[0]] + w[1..];
    } else {
      assert w + s == s;
    }
  }

  lemma SubSitesSite(c: char, s: string, f: char -> string)
    requires IsAcceptor(c)
    ensures SubSites([c] + PHOSPHO + s, f) == f(c) + SubSites(s, f)
  {
    var t := [c] + PHOSPHO + s;
    assert t[1..] == PHOSPHO + s;
    assert t[1..][..|PHOSPHO|] == PHOSPHO;
    assert t[1 + |PHOSPHO|..] == s;
  }

  /** The text of a list never starts with the phospho annotation unless its first token is one. */
  lemma NotPhosphoStart(ts: seq<Token>)
    requires ts != [] ==> !ts[0].Phospho?
    requires ts != [] && ts[0].Residue? ==> IsResidueLetter(ts[0].aa)
    ensures !StartsWith(Render(ts), PHOSPHO)
  {
    AnnotationHeads();
    AnnotationLengths();
    if ts != [] {
      var r := Render(ts);
      var w := Text(ts[0]);
      assert r == w + Render(ts[1..]);
      assert r[0] == w[0];
      if ts[0].Acetyl? || ts[0].Oxidation? {
        assert r[1] == w[1];
        assert r[1] != PHOSPHO[1];
      } else {
        assert r[0] != PHOSPHO[0];
      }
      if |PHOSPHO| <= |r| {
        assert r[..|PHOSPHO|][0] == r[0];
        assert r[..|PHOSPHO|][1] == r[1];
      }
    }
  }

  lemma SubSitesRenderSite(ts: seq<Token>, f: char -> string)
    requires |ts| >= 2 && ts[0].Residue? && ts[1].Phospho? && IsAcceptor(ts[0].aa)
    requires SubSites(Render(ts[2..]), f) == RenderSites(ts[2..], f)
    ensures SubSites(Render(ts), f) == RenderSites(ts, f)
  {
    var c, rest := ts[0].aa, Render(ts[2..]);
    assert Render(ts) == [c] + PHOSPHO + rest by {
      RenderCons(ts[0], ts[1..]);
      RenderCons(ts[1], ts[2..]);
      assert ts[1..] == [ts[1]] + ts[2..];
      assert ts == [ts[0]] + ts[1..];
    }
    assert RenderSites(ts, f) == f(c) + RenderSites(ts[2..], f);
    SubSitesSite(c, rest, f);
  }

  lemma SubSitesRenderOther(ts: seq<Token>, f: char -> string)
    requires ts != [] && !ts[0].Phospho? && !(|ts| >= 2 && ts[0].Residue? && ts[1].Phospho?)
    requires ts[0].Residue? ==> IsResidueLetter(ts[0].aa)
    requires |ts| >= 2 ==> ts[1].Residue? ==> IsResidueLetter(ts[1].aa)
    requires SubSites(Render(ts[1..]), f) == RenderSites(ts[1..], f)
    ensures SubSites(Render(ts), f) == RenderSites(ts, f)
  {
    var t, rest := ts[0], ts[1..];
    assert RenderSites(ts, f) == Text(t) + RenderSites(rest, f);
    assert Render(ts) == Text(t) + Render(rest);
    assert rest != [] ==> rest[0] == ts[1];
    SubSitesSkipToken(t, rest, f);
  }

  /** A token that is not a phospho site passes through the rewrite as its text. */
  lemma SubSitesSkipToken(t: Token, rest: seq<Token>, f: char -> string)
    requires !t.Phospho?
    requires t.Residue? && rest != [] ==> !rest[0].Phospho?
    requires t.Residue? ==> IsResidueLetter(t.aa)
    requires rest != [] && rest[0].Residue? ==> IsResidueLetter(rest[0].aa)
    ensures SubSites(Text(t) + Render(rest), f) == Text(t) + SubSites(Render(rest), f)
  {
    match t
    case Residue(c) =>
      NotPhosphoStart(rest);
      SubSitesSkipChar(c, Render(rest), f);
    case Terminus =>
      SubSitesSkipChar('_', Render(rest), f);
    case Acetyl =>
      AnnotationLetters();
      SubSitesSkipWord(ACETYL, Render(rest), f);
    case Oxidation =>
      AnnotationLetters();
      SubSitesSkipWord(OXIDATION, Render(rest), f);
  }

  /** The regular-expression rewrite of phospho sites is the token-level rendering. */
  lemma {:induction false} SubSitesRender(ts: seq<Token>, f: char -> string)
    requires WellFormed(ts)
    ensures SubSites(Render(ts), f) == RenderSites(ts, f)
    decreases |ts|
  {
    if ts != [] {
      WellFormedHead(ts);
      if |ts| >= 2 && ts[0].Residue? && ts[1].Phospho? {
        WellFormedTail(ts, 2);
        SubSitesRender(ts[2..], f);
        var i := 0;
        assert ts[i + 1].Phospho? ==> IsAcceptor(ts[i].aa);
        SubSitesRenderSite(ts, f);
      } else {
        WellFormedTail(ts, 1);
        SubSitesRender(ts[1..], f);
        if |ts| >= 2 {
          var i := 1;
          assert ts[i].Residue? ==> IsResidueLetter(ts[i].aa);
        }
        SubSitesRenderOther(ts, f);
      }
    }
  }

  // ---------------------------------------------------------------------------
  // Upper-casing the lowered text

  /** Upper-casing the lowered text forgets exactly where the phospho groups were. */
  lemma {:induction false} UpperLowered(ts: seq<Token>)
    requires WellFormed(ts)
    ensures Upper(Lowered(ts)) == Upper(Render(Drop(ts, Phospho)))
    decreases |ts|
  {
    if ts != [] {
      WellFormedHead(ts);
      if |ts| >= 2 && ts[0].Residue? && ts[1].Phospho? {
        WellFormedTail(ts, 2);
        UpperLowered(ts[2..]);
        assert Drop(ts, Phospho) == [ts[0]] + Drop(ts[2..], Phospho) by {
          assert ts[1..][1..] == ts[2..];
        }
        RenderCons(ts[0], Drop(ts[2..], Phospho));
        UpperAppend(LowerSite(ts[0].aa), RenderSites(ts[2..], LowerSite));
        UpperAppend(Text(ts[0]), Render(Drop(ts[2..], Phospho)));
      } else {
        WellFormedTail(ts, 1);
        UpperLowered(ts[1..]);
        RenderCons(ts[0], Drop(ts[1..], Phospho));
        UpperAppend(Text(ts[0]), RenderSites(ts[1..], LowerSite));
        UpperAppend(Text(ts[0]), Render(Drop(ts[1..], Phospho)));
      }
    }
  }

  lemma UpperRenderCons(t: Token, ts: seq<Token>)
    ensures Upper(Render([t] + ts)) == Upper(Text(t)) + Upper(Render(ts))
  {
    RenderCons(t, ts);
    UpperAppend(Text(t), Render(ts));
  }

  /** The first two characters of an upper-cased token text identify the token. */
  lemma UpperTextHead(t: Token)
    requires !t.Phospho?
    requires t.Residue? ==> IsResidueLetter(t.aa)
    ensures var u := Upper(Text(t));
      |u| >= 1 &&
      (t.Terminus? ==> u[0] == '_') &&
      (t.Residue? ==> u[0] == t.aa) &&
      (t.Acetyl? ==> |u| >= 2 && u[0] == '(' && u[1] == 'A') &&
      (t.Oxidation? ==> |u| >= 2 && u[0] == '(' && u[1] == 'O')
  {
    var w := Text(t);
    var u := Upper(w);
    assert u[0] == UpperChar(w[0]);
    match t
    case Acetyl =>
      AnnotationHeads();
      AnnotationLengths();
      assert u[1] == UpperChar(w[1]);
    case Oxidation =>
      AnnotationHeads();
      AnnotationLengths();
      assert u[1] == UpperChar(w[1]);
    case Terminus =>
    case Residue(c) =>
  }

  /** Tokens whose upper-cased texts agree in the first two characters are equal. */
  lemma SameToken(a: Token, b: Token)
    requires !a.Phospho? && !b.Phospho?
    requires a.Residue? ==> IsResidueLetter(a.aa)
    requires b.Residue? ==> IsResidueLetter(b.aa)
    requires Upper(Text(a))[0] == Upper(Text(b))[0]
    requires (a.Acetyl? || a.Oxidation?) && (b.Acetyl? || b.Oxidation?) ==> Upper(Text(a))[1] == Upper(Text(b))[1]
    ensures a == b
  {
    UpperTextHead(a);
    UpperTextHead(b);
  }

  lemma SameHead(a: Token, b: Token, ra: string, rb: string)
    requires !a.Phospho? && !b.Phospho?
    requires a.Residue? ==> IsResidueLetter(a.aa)
    requires b.Residue? ==> IsResidueLetter(b.aa)
    requires Upper(Text(a)) + ra == Upper(Text(b)) + rb
    ensures a == b
    ensures ra == rb
  {
    UpperTextHead(a);
    UpperTextHead(b);
    var ua, ub := Upper(Text(a)), Upper(Text(b));
    assert (ua + ra)[0] == ua[0] && (ub + rb)[0] == ub[0];
    if (a.Acetyl? || a.Oxidation?) && (b.Acetyl? || b.Oxidation?) {
      assert (ua + ra)[1] == ua[1] && (ub + rb)[1] == ub[1];
    }
    SameToken(a, b);
    assert ra == (ua + ra)[|ua|..];
    assert rb == (ub + rb)[|ub|..];
  }

  lemma RenderNonEmpty(ts: seq<Token>)
    ensures ts != [] ==> |Upper(Render(ts))| > 0
  {
    if ts != [] {
      RenderCons(ts[0], ts[1..]);
      assert ts == [ts[0]] + ts[1..];
    }
  }

  /** Two upper-cased texts of phospho-free lists agree only if the lists do. */
  lemma {:induction false} UpperRenderInjective(a: seq<Token>, b: seq<Token>)
    requires Phospho !in a && Phospho !in b
    requires forall i :: 0 <= i < |a| && a[i].Residue? ==> IsResidueLetter(a[i].aa)
    requires forall i :: 0 <= i < |b| && b[i].Residue? ==> IsResidueLetter(b[i].aa)
    requires Upper(Render(a)) == Upper(Render(b))
    ensures a == b
    decreases |a|
  {
    RenderNonEmpty(a);
    RenderNonEmpty(b);
    if a != [] && b != [] {
      assert a == [a[0]] + a[1..] && b == [b[0]] + b[1..];
      UpperRenderCons(a[0], a[1..]);
      UpperRenderCons(b[0], b[1..]);
      assert a[0] in a && b[0] in b;
      SameHead(a[0], b[0], Upper(Render(a[1..])), Upper(Render(b[1..])));
      forall i | 0 <= i < |a[1..]| && a[1..][i].Residue? ensures IsResidueLetter(a[1..][i].aa) {
        assert a[1..][i] == a[i + 1];
      }
      forall i | 0 <= i < |b[1..]| && b[1..][i].Residue? ensures IsResidueLetter(b[1..][i].aa) {
        assert b[1..][i] == b[i + 1];
      }
      assert Phospho !in a[1..] && Phospho !in b[1..];
      UpperRenderInjective(a[1..], b[1..]);
    }
  }

  /** The isomer test of the consensus: two well-formed sequences have the same
      upper-cased lowered text exactly when they differ only in where the phospho
      groups sit. */
  lemma IsomerTest(a: seq<Token>, b: seq<Token>)
    requires WellFormed(a) && WellFormed(b)
    ensures Upper(Lowered(a)) == Upper(Lowered(b)) <==> Drop(a, Phospho) == Drop(b, Phospho)
  {
    UpperLowered(a);
    UpperLowered(b);
    if Upper(Lowered(a)) == Upper(Lowered(b)) {
      var da, db := Drop(a, Phospho), Drop(b, Phospho);
      forall i | 0 <= i < |da| && da[i].Residue? ensures IsResidueLetter(da[i].aa) {
        assert da[i] in a;
      }
      forall i | 0 <= i < |db| && db[i].Residue? ensures IsResidueLetter(db[i].aa) {
        assert db[i] in b;
      }
      UpperRenderInjective(da, db);
    }
  }

  // ---------------------------------------------------------------------------
  // Counting lower-case sites

  predicate IsSiteChar(c: char) {
    c == 's' || c == 't' || c == 'y'
  }

  /** `len(re.findall(r'[sty]', s))`. */
  function CountSites(s: string): (n: nat)
    ensures n <= |s|
    decreases |s|
  {
    if s == [] then 0 else (if IsSiteChar(s[0]) then 1 else 0) + CountSites(s[1..])
  }

  lemma {:induction false} CountSitesAppend(a: string, b: string)
    ensures CountSites(a + b) == CountSites(a) + CountSites(b)
    decreases |a|
  {
    if a != [] {
      assert (a + b)[1..] == a[1..] + b;
      assert (a + b)[0] == a[0];
      CountSitesAppend(a[1..], b);
    } else {
      assert a + b == b;
    }
  }

  lemma CountSitesLoweredSite(ts: seq<Token>)
    requires |ts| >= 2 && ts[0].Residue? && ts[1].Phospho? && IsAcceptor(ts[0].aa)
    requires CountSites(Lowered(ts[2..])) == CountPhospho(ts[2..])
    ensures CountSites(Lowered(ts)) == CountPhospho(ts)
  {
    CountSitesAppend(LowerSite(ts[0].aa), RenderSites(ts[2..], LowerSite));
    assert ts[1..][1..] == ts[2..];
  }

  lemma CountSitesLoweredOther(ts: seq<Token>)
    requires ts != [] && !ts[0].Phospho? && !(|ts| >= 2 && ts[0].Residue? && ts[1].Phospho?)
    requires !ts[0].Acetyl? && !ts[0].Oxidation?
    requires ts[0].Residue? ==> IsResidueLetter(ts[0].aa)
    requires CountSites(Lowered(ts[1..])) == CountPhospho(ts[1..])
    ensures CountSites(Lowered(ts)) == CountPhospho(ts)
  {
    CountSitesAppend(Text(ts[0]), RenderSites(ts[1..], LowerSite));
    assert Lowered(ts) == Text(ts[0]) + Lowered(ts[1..]);
    assert CountSites(Text(ts[0])) == 0;
  }

  /** Without acetyl and oxidation annotations, the lower-case letters of the
      lowered text are exactly the phospho sites. */
  lemma {:induction false} CountSitesLowered(ts: seq<Token>)
    requires WellFormed(ts) && NoAcetylOxidation(ts)
    ensures CountSites(Lowered(ts)) == CountPhospho(ts)
    decreases |ts|
  {
    if ts != [] {
      WellFormedHead(ts);
      assert ts[0] in ts;
      if |ts| >= 2 && ts[0].Residue? && ts[1].Phospho? {
        WellFormedTail(ts, 2);
        assert NoAcetylOxidation(ts[2..]) by {
          assert forall u :: u in ts[2..] ==> u in ts;
        }
        CountSitesLowered(ts[2..]);
        var i := 0;
        assert ts[i + 1].Phospho? ==> IsAcceptor(ts[i].aa);
        CountSitesLoweredSite(ts);
      } else {
        WellFormedTail(ts, 1);
        assert NoAcetylOxidation(ts[1..]) by {
          assert forall u :: u in ts[1..] ==> u in ts;
        }
        CountSitesLowered(ts[1..]);
        CountSitesLoweredOther(ts);
      }
    }
  }
}
