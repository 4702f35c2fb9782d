/** The sequence normalisation helpers of `simsi_transfer/processing_functions.py`:
    raw-file names from MaRaCluster paths, the three rewrites of MaxQuant
    modified sequences, and the small list helpers. */
module Processing {
  import opened Wrappers
  import opened Strings
  import opened Peptides
  import opened Utils

  /** A value handed to the type-checking helpers: a string, NaN, any other
      number, or a list. */
  datatype PyValue = Str(text: string) | Nan | Number(x: real) | List(items: seq<PyValue>)

  // ---------------------------------------------------------------------------
  // purge_mrc_files

  /** `re.search(r'.+<sep>', s)`: a separator after at least one character. */
  predicate HasDirectory(s: string, sep: char) {
    exists i :: 1 <= i < |s| && s[i] == sep
  }

  function LastIndex(s: string, sep: char): (k: int)
    ensures -1 <= k < |s|
    ensures k >= 0 ==> s[k] == sep
    ensures forall i :: k < i < |s| ==> s[i] != sep
    decreases |s|
  {
    if s == [] then -1
    else if s[|s| - 1] == sep then |s| - 1
    else
      var k := LastIndex(s[..|s| - 1], sep);
      assert forall i :: 0 <= i < |s| - 1 ==> s[..|s| - 1][i] == s[i];
      k
  }

  /** `re.sub(r'.+<sep>', '', s)`: the greedy match runs from the start to the
      last separator, and no separator is left after it to match again. */
  function StripDirectories(s: string, sep: char): (r: string)
    ensures HasDirectory(s, sep) ==> sep !in r && |r| < |s|
    ensures !HasDirectory(s, sep) ==> r == s
  {
    if HasDirectory(s, sep) then
      var k := LastIndex(s, sep);
      assert k >= 1 by {
        var i :| 1 <= i < |s| && s[i] == sep;
      }
      var r := s[k + 1..];
      assert forall j :: 0 <= j < |r| ==> r[j] == s[k + 1 + j];
      r
    else s
  }

  /** `re.sub(pat, '', s, flags=re.IGNORECASE)` for a pattern without
      metacharacters, with ASCII case folding. */
  function RemoveIgnoreCase(s: string, pat: string): (r: string)
    requires pat != []
    ensures forall c :: c in r ==> c in s
    decreases |s|
  {
    if s == [] then []
    else if |pat| <= |s| && Upper(s[..|pat|]) == Upper(pat) then RemoveIgnoreCase(s[|pat|..], pat)
    else
      var rest := RemoveIgnoreCase(s[1..], pat);
      assert forall c :: c in rest ==> c in s by {
        forall c | c in rest ensures c in s {
          var i :| 0 <= i < |s[1..]| && s[1..][i] == c;
          assert s[i + 1] == c;
        }
      }
      [s[0]] + rest
  }

  /** The raw-file name `purge_mrc_files` computes for path separator `sep`. */
  function PurgedName(rawFile: string, mode: string, sep: char): string {
    RemoveIgnoreCase(StripDirectories(rawFile, sep), "." + mode)
  }

  /** `purge_mrc_files`: strip directories until no separator matches, then the extension. */
  method PurgeMrcFiles(rawFile: string, mode: string, sep: char) returns (r: string)
    ensures r == PurgedName(rawFile, mode, sep)
  {
    var s := rawFile;
    while HasDirectory(s, sep)
      invariant StripDirectories(s, sep) == StripDirectories(rawFile, sep)
      decreases |s|
    {
      s := StripDirectories(s, sep);
    }
    r := RemoveIgnoreCase(s, "." + mode);
  }

  /** A separator survives only when it is the first character of the path and
      the path has no other. */
  lemma PurgedNameSeparator(rawFile: string, mode: string, sep: char)
    requires sep in PurgedName(rawFile, mode, sep)
    ensures rawFile != [] && rawFile[0] == sep
    ensures forall i :: 1 <= i < |rawFile| ==> rawFile[i] != sep
  {
    assert sep in StripDirectories(rawFile, sep);
  }

  lemma UpperNotDot(c: char)
    requires c != '.'
    ensures UpperChar(c) != '.'
  {
  }

  lemma {:induction false} RemoveIgnoreCaseSkip(w: string, rest: string, pat: string)
    requires pat != [] && pat[0] == '.' && '.' !in w
    ensures RemoveIgnoreCase(w + rest, pat) == w + RemoveIgnoreCase(rest, pat)
    decreases |w|
  {
    if w == [] {
      assert w + rest == rest;
    } else {
      var s := w + rest;
      assert s[0] == w[0];
      UpperNotDot(w[0]);
      assert Upper(pat)[0] == '.';
      if |pat| <= |s| {
        assert Upper(s[..|pat|])[0] == UpperChar(w[0]);
      }
      assert s[1..] == w[1..] + rest;
      RemoveIgnoreCaseSkip(w[1..], rest, pat);
      assert w == [w[0]] + w[1..];
    }
  }

  /** The extension `.mode` is removed whatever its letter case. */
  lemma RemoveExtension(name: string, ext: string, mode: string)
    requires '.' !in name && Upper(ext) == Upper(mode)
    ensures RemoveIgnoreCase(name + "." + ext, "." + mode) == name
  {
    var pat := "." + mode;
    RemoveIgnoreCaseSkip(name, "." + ext, pat);
    var s := "." + ext;
    assert |ext| == |mode|;
    assert s[..|pat|] == s;
    UpperAppend(".", ext);
    UpperAppend(".", mode);
    assert s[|pat|..] == [];
    assert name + "." + ext == name + s;
  }

  lemma StripDirectoriesAt(dir: string, sep: char, tail: string)
    requires dir != [] && sep !in tail
    ensures StripDirectories(dir + [sep] + tail, sep) == tail
  {
    var s := dir + [sep] + tail;
    assert s[|dir|] == sep;
    assert HasDirectory(s, sep);
    var k := LastIndex(s, sep);
    assert forall i :: |dir| < i < |s| ==> s[i] == tail[i - |dir| - 1];
    assert k == |dir|;
    assert s[k + 1..] == tail;
  }

  /** A path `dir<sep>name.ext` with `ext` equal to `mode` up to case gives `name`. */
  lemma PurgedNameOfPath(dir: string, name: string, ext: string, mode: string, sep: char)
    requires dir != [] && sep != '.'
    requires sep !in name && sep !in ext && '.' !in name
    requires Upper(ext) == Upper(mode)
    ensures PurgedName(dir + [sep] + name + "." + ext, mode, sep) == name
  {
    var tail := name + "." + ext;
    assert sep !in tail;
    StripDirectoriesAt(dir, sep, tail);
    RemoveExtension(name, ext, mode);
    assert dir + [sep] + name + "." + ext == dir + [sep] + tail;
  }

  /** The separator test as written: `"win" in sys.platform`. */
  function SeparatorAsWritten(platform: string): char {
    if Contains(platform, "win") then '\\' else '/'
  }

  /** The separator test as intended: Windows platform names start with `win`. */
  function PlatformSeparator(platform: string): (sep: char)
    ensures sep == '\\' <==> StartsWith(platform, "win")
  {
    if StartsWith(platform, "win") then '\\' else '/'
  }

  /** On macOS (`darwin`) the written test picks the Windows separator, so a
      POSIX path keeps its directories. */
  lemma DarwinAsWritten(dir: string, name: string)
    requires '.' !in dir && '.' !in name && '\\' !in dir && '\\' !in name
    ensures SeparatorAsWritten("darwin") == '\\'
    ensures PurgedName(dir + "/" + name + ".mzML", "mzML", SeparatorAsWritten("darwin")) == dir + "/" + name
  {
    assert "darwin"[3..][..3] == "win";
    assert Contains("darwin"[3..], "win");
    assert Contains("darwin", "win");
    var s := dir + "/" + name + ".mzML";
    var w := dir + "/" + name;
    assert forall i :: 0 <= i < |w| ==> w[i] != '\\' && w[i] != '.' by {
      forall i | 0 <= i < |w| ensures w[i] != '\\' && w[i] != '.' {
        if i < |dir| {
          assert w[i] == dir[i];
        } else if i > |dir| {
          assert w[i] == name[i - |dir| - 1];
        }
      }
    }
    assert forall i :: 0 <= i < |s| ==> s[i] != '\\';
    assert StripDirectories(s, '\\') == s;
    assert s == w + "." + "mzML";
    RemoveExtension(w, "mzML", "mzML");
  }

  /** With the intended test, macOS and Windows both strip the directories. */
  lemma PlatformSeparatorStrips(dir: string, name: string)
    requires dir != [] && '.' !in name && '/' !in name
    ensures PlatformSeparator("darwin") == '/' && PlatformSeparator("win32") == '\\'
    ensures PurgedName(dir + "/" + name + ".mzML", "mzML", PlatformSeparator("darwin")) == name
  {
    assert "darwin"[..3] == "dar";
    assert "dar"[0] != "win"[0];
    assert "win32"[..3] == "win";
    PurgedNameOfPath(dir, name, "mzML", "mzML", '/');
    assert dir + "/" + name + ".mzML" == dir + ['/'] + name + "." + "mzML";
  }

  // ---------------------------------------------------------------------------
  // purge_modified_sequence

  /** Length of the run of characters other than parentheses at the start of `s`. */
  function NonParenRun(s: string): (n: nat)
    ensures n <= |s|
    ensures forall i :: 0 <= i < n ==> s[i] != '(' && s[i] != ')'
    ensures n < |s| ==> s[n] == '(' || s[n] == ')'
    decreases |s|
  {
    if s != [] && s[0] != '(' && s[0] != ')' then 1 + NonParenRun(s[1..]) else 0
  }

  lemma {:induction false} NonParenRunAppend(w: string, s: string)
    requires '(' !in w && ')' !in w
    requires s != [] && (s[0] == '(' || s[0] == ')')
    ensures NonParenRun(w + s) == |w|
    decreases |w|
  {
    if w == [] {
      assert w + s == s;
    } else {
      assert (w + s)[0] == w[0];
      assert (w + s)[1..] == w[1..] + s;
      NonParenRunAppend(w[1..], s);
    }
  }

  /** Length of a match of `\([^()]+\)` at the start of `s`. */
  function GroupAt(s: string): (m: Option<nat>)
    ensures m.Some? ==> 3 <= m.value <= |s| && s[0] == '('
  {
    if |s| >= 1 && s[0] == '(' then
      var k := NonParenRun(s[1..]);
      if k >= 1 && 1 + k < |s| && s[1 + k] == ')' then Some(2 + k) else None
    else None
  }

  /** `re.sub(r'\([^()]+\)', '', s)`: every innermost annotation removed once. */
  function RemoveGroups(s: string): (r: string)
    ensures |r| <= |s|
    decreases |s|
  {
    if s == [] then []
    else match GroupAt(s)
      case Some(n) => RemoveGroups(s[n..])
      case None => [s[0]] + RemoveGroups(s[1..])
  }

  /** `re.search(r'\([^()]+\)', s)`. */
  predicate HasGroup(s: string) {
    exists i :: 0 <= i < |s| && GroupAt(s[i..]).Some?
  }

  lemma {:induction false} RemoveGroupsShrinks(s: string)
    ensures HasGroup(s) ==> |RemoveGroups(s)| < |s|
    ensures !HasGroup(s) ==> RemoveGroups(s) == s
    decreases |s|
  {
    if s != [] {
      assert s[0..] == s;
    }
    if s != [] && GroupAt(s).None? {
      RemoveGroupsShrinks(s[1..]);
      assert s == [s[0]] + s[1..];
      assert forall i :: 1 <= i < |s| ==> s[i..] == s[1..][i - 1..];
      assert s[0..] == s;
      assert HasGroup(s) <==> HasGroup(s[1..]);
    }
  }

  /** The loop of `purge_modified_sequence` that removes innermost annotations
      until none is left. */
  function RemoveAllGroups(s: string): (r: string)
    ensures !HasGroup(r)
    decreases |s|
  {
    RemoveGroupsShrinks(s);
    if HasGroup(s) then RemoveAllGroups(RemoveGroups(s)) else s
  }

  lemma RemoveAllGroupsStep(s: string)
    ensures RemoveAllGroups(RemoveGroups(s)) == RemoveAllGroups(s)
  {
    RemoveGroupsShrinks(s);
  }

  /** `re.sub(r'p([STY])', r'\g<1>', s)`. */
  function Unmark(s: string): (r: string)
    ensures forall c :: c in r ==> c in s
    decreases |s|
  {
    if s == [] then []
    else if |s| >= 2 && s[0] == 'p' && IsAcceptor(s[1]) then
      var rest := Unmark(s[2..]);
      assert forall c :: c in rest ==> c in s by {
        forall c | c in rest ensures c in s {
          var i :| 0 <= i < |s[2..]| && s[2..][i] == c;
          assert s[i + 2] == c;
        }
      }
      [s[1]] + rest
    else
      var rest := Unmark(s[1..]);
      assert forall c :: c in rest ==> c in s by {
        forall c | c in rest ensures c in s {
          var i :| 0 <= i < |s[1..]| && s[1..][i] == c;
          assert s[i + 1] == c;
        }
      }
      [s[0]] + rest
  }

  /** The sequence `purge_modified_sequence` leaves: no annotation, no underscore. */
  function Purged(s: string): (r: string)
    ensures '_' !in r
  {
    Unmark(ReplaceAll(RemoveAllGroups(s), "_", ""))
  }

  method PurgeModifiedSequence(pepseq: PyValue) returns (r: Result<Option<string>>)
    ensures pepseq.Str? ==> r == Ok(Some(Purged(pepseq.text)))
    ensures pepseq.Nan? ==> r == Ok(None)
    ensures pepseq.Number? ==> r.Err? && r.error.ValueError?
    ensures pepseq.List? ==> r.Err? && r.error.TypeError?
  {
    match pepseq
    case Str(text) =>
      var s := text;
      while HasGroup(s)
        invariant RemoveAllGroups(s) == RemoveAllGroups(text)
        decreases |s|
      {
        RemoveAllGroupsStep(s);
        RemoveGroupsShrinks(s);
        s := RemoveGroups(s);
      }
      if '_' in s {
        s := ReplaceAll(s, "_", "");
      }
      s := Unmark(s);
      r := Ok(Some(s));
    case Nan =>
      r := Ok(None);
    case Number(_) =>
      r := Err(ValueError("String required for modified sequences"));
    case List(_) =>
      // math.isnan rejects a list before the explicit check is reached
      r := Err(TypeError("must be real number, not list"));
  }

  // Purging a MaxQuant rendering, pass by pass

  function RenderBy(ts: seq<Token>, f: Token -> string): string
    decreases |ts|
  {
    if ts == [] then [] else f(ts[0]) + RenderBy(ts[1..], f)
  }

  lemma {:induction false} RenderIsRenderBy(ts: seq<Token>)
    ensures Render(ts) == RenderBy(ts, Text)
    decreases |ts|
  {
    if ts != [] {
      RenderIsRenderBy(ts[1..]);
    }
  }

  /** An annotation after the first pass: its inner group is gone. */
  function HalfText(t: Token): string {
    match t
    case Phospho => "(Phospho )"
    case Acetyl => "(Acetyl )"
    case Oxidation => "(Oxidation )"
    case _ => Text(t)
  }

  /** Residues and underscores only. */
  function BareText(t: Token): string {
    if t.Residue? || t.Terminus? then Text(t) else []
  }

  predicate NoParens(w: string) {
    '(' !in w && ')' !in w
  }

  lemma GroupsSkipChar(c: char, s: string)
    requires c != '('
    ensures RemoveGroups([c] + s) == [c] + RemoveGroups(s)
  {
    assert ([c] + s)[1..] == s;
  }

  lemma {:induction false} GroupsSkipWord(w: string, s: string)
    requires '(' !in w
    ensures RemoveGroups(w + s) == w + RemoveGroups(s)
    decreases |w|
  {
    if w == [] {
      assert w + s == s;
    } else {
      assert w + s == [w[0]] + (w[1..] + s);
      GroupsSkipChar(w[0], w[1..] + s);
      GroupsSkipWord(w[1..], s);
      assert w == [w[0]] + w[1..];
    }
  }

  lemma GroupsDrop(w: string, s: string)
    requires w != [] && NoParens(w)
    ensures RemoveGroups("(" + w + ")" + s) == RemoveGroups(s)
  {
    var t := "(" + w + ")" + s;
    assert t[1..] == w + (")" + s);
    NonParenRunAppend(w, ")" + s);
    assert t[1 + |w|] == ')';
    assert t[|w| + 2..] == s;
  }

  /** A text without a group at its head keeps its first character. */
  lemma GroupsSkipHead(t: string)
    requires t != [] && GroupAt(t).None?
    ensures RemoveGroups(t) == [t[0]] + RemoveGroups(t[1..])
  {
  }

  /** An opening parenthesis followed by a second one before any closing one starts no group. */
  lemma NoGroupBeforeOpen(w: string, u: string)
    requires NoParens(w) && u != [] && u[0] == '('
    ensures GroupAt(['('] + (w + u)).None?
  {
    var t := ['('] + (w + u);
    assert t[1..] == w + u;
    NonParenRunAppend(w, u);
    assert t[1 + |w|] == '(';
  }

  /** An opening parenthesis that is followed by another before any closing one stays. */
  lemma GroupsOpen(w: string, u: string)
    requires NoParens(w) && u != [] && u[0] == '('
    ensures RemoveGroups("(" + w + u) == "(" + w + RemoveGroups(u)
  {
    var t := ['('] + (w + u);
    NoGroupBeforeOpen(w, u);
    GroupsSkipHead(t);
    assert t[1..] == w + u;
    GroupsSkipWord(w, u);
    ConsAssoc('(', w, u);
    ConsAssoc('(', w, RemoveGroups(u));
  }

  /** `(a(b))` loses its inner group in one pass. */
  lemma GroupsNested(a: string, b: string, rest: string)
    requires NoParens(a) && NoParens(b) && b != []
    ensures RemoveGroups("(" + a + "(" + b + ")" + ")" + rest) == "(" + a + ")" + RemoveGroups(rest)
  {
    var tail := ")" + rest;
    var inner := "(" + b + ")" + tail;
    assert "(" + a + "(" + b + ")" + ")" + rest == "(" + a + inner;
    GroupsOpen(a, inner);
    GroupsDrop(b, tail);
    GroupsSkipChar(')', rest);
    assert "(" + a + (")" + RemoveGroups(rest)) == "(" + a + ")" + RemoveGroups(rest);
  }

  /** The three annotations, each a word and an inner group in parentheses. */
  lemma AnnotationShapes()
    ensures PHOSPHO == "(" + "Phospho " + "(" + "STY" + ")" + ")"
    ensures ACETYL == "(" + "Acetyl " + "(" + "Protein N-term" + ")" + ")"
    ensures OXIDATION == "(" + "Oxidation " + "(" + "M" + ")" + ")"
    ensures "(Phospho )" == "(" + "Phospho " + ")"
    ensures "(Acetyl )" == "(" + "Acetyl " + ")"
    ensures "(Oxidation )" == "(" + "Oxidation " + ")"
  {
  }

  lemma HalfPhospho(rest: string)
    ensures RemoveGroups(PHOSPHO + rest) == "(Phospho )" + RemoveGroups(rest)
  {
    AnnotationShapes();
    GroupsNested("Phospho ", "STY", rest);
  }

  lemma HalfAcetyl(rest: string)
    ensures RemoveGroups(ACETYL + rest) == "(Acetyl )" + RemoveGroups(rest)
  {
    AnnotationShapes();
    GroupsNested("Acetyl ", "Protein N-term", rest);
  }

  lemma HalfOxidation(rest: string)
    ensures RemoveGroups(OXIDATION + rest) == "(Oxidation )" + RemoveGroups(rest)
  {
    AnnotationShapes();
    GroupsNested("Oxidation ", "M", rest);
  }

  lemma HalfStep(t: Token, rest: string)
    requires t.Residue? ==> IsResidueLetter(t.aa)
    ensures RemoveGroups(Text(t) + rest) == HalfText(t) + RemoveGroups(rest)
  {
    match t
    case Phospho => HalfPhospho(rest);
    case Acetyl => HalfAcetyl(rest);
    case Oxidation => HalfOxidation(rest);
    case Terminus => GroupsSkipChar('_', rest);
    case Residue(c) => GroupsSkipChar(c, rest);
  }

  lemma BareStep(t: Token, rest: string)
    requires t.Residue? ==> IsResidueLetter(t.aa)
    ensures RemoveGroups(HalfText(t) + rest) == BareText(t) + RemoveGroups(rest)
  {
    match t
    case Phospho =>
      AnnotationShapes();
      GroupsDrop("Phospho ", rest);
      assert [] + RemoveGroups(rest) == RemoveGroups(rest);
    case Acetyl =>
      AnnotationShapes();
      GroupsDrop("Acetyl ", rest);
      assert [] + RemoveGroups(rest) == RemoveGroups(rest);
    case Oxidation =>
      AnnotationShapes();
      GroupsDrop("Oxidation ", rest);
      assert [] + RemoveGroups(rest) == RemoveGroups(rest);
    case Terminus =>
      GroupsSkipChar('_', rest);
    case Residue(c) =>
      GroupsSkipChar(c, rest);
  }

  lemma {:induction false} HalfPass(ts: seq<Token>)
    requires LetterResidues(ts)
    ensures RemoveGroups(RenderBy(ts, Text)) == RenderBy(ts, HalfText)
    decreases |ts|
  {
    if ts != [] {
      assert ts[0].Residue? ==> IsResidueLetter(ts[0].aa);
      HalfStep(ts[0], RenderBy(ts[1..], Text));
      assert LetterResidues(ts[1..]) by {
        forall i | 0 <= i < |ts[1..]| && ts[1..][i].Residue? ensures IsResidueLetter(ts[1..][i].aa) {
          assert ts[1..][i] == ts[i + 1];
        }
      }
      HalfPass(ts[1..]);
    }
  }

  lemma {:induction false} BarePass(ts: seq<Token>)
    requires LetterResidues(ts)
    ensures RemoveGroups(RenderBy(ts, HalfText)) == RenderBy(ts, BareText)
    decreases |ts|
  {
    if ts != [] {
      assert ts[0].Residue? ==> IsResidueLetter(ts[0].aa);
      BareStep(ts[0], RenderBy(ts[1..], HalfText));
      assert LetterResidues(ts[1..]) by {
        forall i | 0 <= i < |ts[1..]| && ts[1..][i].Residue? ensures IsResidueLetter(ts[1..][i].aa) {
          assert ts[1..][i] == ts[i + 1];
        }
      }
      BarePass(ts[1..]);
    }
  }

  lemma {:induction false} BareNoParen(ts: seq<Token>)
    requires LetterResidues(ts)
    ensures '(' !in RenderBy(ts, BareText)
    decreases |ts|
  {
    if ts != [] {
      assert ts[0].Residue? ==> IsResidueLetter(ts[0].aa);
      assert LetterResidues(ts[1..]) by {
        forall i | 0 <= i < |ts[1..]| && ts[1..][i].Residue? ensures IsResidueLetter(ts[1..][i].aa) {
          assert ts[1..][i] == ts[i + 1];
        }
      }
      BareNoParen(ts[1..]);
    }
  }

  lemma {:induction false} BareUnderscores(ts: seq<Token>)
    requires LetterResidues(ts)
    ensures ReplaceAll(RenderBy(ts, BareText), "_", "") == Residues(ts)
    decreases |ts|
  {
    if ts != [] {
      assert ts[0].Residue? ==> IsResidueLetter(ts[0].aa);
      assert LetterResidues(ts[1..]) by {
        forall i | 0 <= i < |ts[1..]| && ts[1..][i].Residue? ensures IsResidueLetter(ts[1..][i].aa) {
          assert ts[1..][i] == ts[i + 1];
        }
      }
      BareUnderscores(ts[1..]);
      var rest := RenderBy(ts[1..], BareText);
      match ts[0]
      case Terminus =>
        ReplaceAllPrefixPat(rest, "_", "");
      case Residue(c) =>
        ReplaceAllPrefixChar(c, rest, "_", "");
      case _ =>
        assert RenderBy(ts, BareText) == rest;
    }
  }

  lemma {:induction false} UnmarkPlain(s: string)
    requires 'p' !in s
    ensures Unmark(s) == s
    decreases |s|
  {
    if s != [] {
      assert s[0] in s;
      UnmarkPlain(s[1..]);
    }
  }

  lemma {:induction false} ResiduesLetters(ts: seq<Token>)
    requires LetterResidues(ts)
    ensures forall i :: 0 <= i < |Residues(ts)| ==> IsResidueLetter(Residues(ts)[i])
    decreases |ts|
  {
    if ts != [] {
      assert ts[0].Residue? ==> IsResidueLetter(ts[0].aa);
      assert LetterResidues(ts[1..]) by {
        forall i | 0 <= i < |ts[1..]| && ts[1..][i].Residue? ensures IsResidueLetter(ts[1..][i].aa) {
          assert ts[1..][i] == ts[i + 1];
        }
      }
      ResiduesLetters(ts[1..]);
    }
  }

  /** Purging a MaxQuant modified sequence leaves exactly its plain sequence:
      nested annotations go in two passes of the loop, then the underscores. */
  lemma PurgedRender(ts: seq<Token>)
    requires LetterResidues(ts)
    ensures Purged(Render(ts)) == Residues(ts)
  {
    RenderIsRenderBy(ts);
    HalfPass(ts);
    BarePass(ts);
    BareNoParen(ts);
    var bare := RenderBy(ts, BareText);
    assert !HasGroup(bare);
    RemoveGroupsShrinks(bare);
    RemoveAllGroupsStep(Render(ts));
    RemoveAllGroupsStep(RenderBy(ts, HalfText));
    assert RemoveAllGroups(Render(ts)) == bare;
    BareUnderscores(ts);
    ResiduesLetters(ts);
    UnmarkPlain(Residues(ts));
  }

  // ---------------------------------------------------------------------------
  // clean_modified_sequence

  function PSite(c: char): string {
    ['p', c]
  }

  /** The `p[STY]` form: underscores, acetyl and oxidation annotations removed,
      each phosphorylated residue written `p` followed by the residue. */
  function Cleaned(s: string): string {
    var a := ReplaceAll(s, "_", "");
    var b := ReplaceAll(a, ACETYL, "");
    var c := ReplaceAll(b, OXIDATION, "");
    SubSites(c, PSite)
  }

  function CleanModifiedSequence(pepseq: PyValue): (r: Result<Option<string>>)
    ensures r.Ok? <==> pepseq.Str? || pepseq.Nan?
    ensures r == Ok(None) <==> pepseq.Nan?
    ensures r.Err? ==> r.error.ValueError?
  {
    match pepseq
    case Str(s) => Ok(Some(Cleaned(s)))
    case Nan => Ok(None)
    case _ => Err(ValueError("String required for modified sequences"))
  }

  /** Every phospho annotation directly follows an S, T or Y residue. */
  ghost predicate SitesFollow(ts: seq<Token>) {
    forall i :: 0 <= i < |ts| - 1 && ts[i + 1].Phospho? ==> ts[i].Residue? && IsAcceptor(ts[i].aa)
  }

  lemma SitesFollowTail(ts: seq<Token>)
    requires ts != [] && SitesFollow(ts)
    ensures SitesFollow(ts[1..])
  {
    forall i | 0 <= i < |ts[1..]| - 1 && ts[1..][i + 1].Phospho?
      ensures ts[1..][i].Residue? && IsAcceptor(ts[1..][i].aa)
    {
      assert ts[1..][i + 1] == ts[i + 2];
      assert ts[1..][i] == ts[i + 1];
    }
  }

  /** Dropping a token that is neither a residue nor a phospho group keeps every
      phospho group behind its residue. */
  lemma {:induction false} DropSitesFollow(ts: seq<Token>, t: Token)
    requires SitesFollow(ts) && !t.Residue? && !t.Phospho?
    ensures SitesFollow(Drop(ts, t))
    ensures Drop(ts, t) != [] && Drop(ts, t)[0].Phospho? ==> ts[0].Phospho?
    decreases |ts|
  {
    if ts != [] {
      SitesFollowTail(ts);
      assert |ts| >= 2 && ts[1].Phospho? ==> ts[0].Residue? by {
        if |ts| >= 2 {
          var j := 0;
          assert ts[j + 1].Phospho? ==> ts[j].Residue? && IsAcceptor(ts[j].aa);
        }
      }
      DropSitesFollow(ts[1..], t);
      var rest := Drop(ts[1..], t);
      if ts[0] != t {
        var d := [ts[0]] + rest;
        assert Drop(ts, t) == d;
        forall i | 0 <= i < |d| - 1 && d[i + 1].Phospho? ensures d[i].Residue? && IsAcceptor(d[i].aa) {
          if i == 0 {
            assert rest[0].Phospho?;
            assert ts[1].Phospho?;
            var j := 0;
            assert ts[j + 1].Phospho? ==> ts[j].Residue? && IsAcceptor(ts[j].aa);
          } else {
            assert d[i + 1] == rest[i] && d[i] == rest[i - 1];
          }
        }
      }
    }
  }

  lemma DropWellFormed(ts: seq<Token>, t: Token)
    requires WellFormed(ts) && !t.Residue? && !t.Phospho?
    ensures WellFormed(Drop(ts, t))
  {
    DropSitesFollow(ts, t);
    var d := Drop(ts, t);
    forall i | 0 <= i < |d| && d[i].Residue? ensures IsResidueLetter(d[i].aa) {
      assert d[i] in ts;
      var k :| 0 <= k < |ts| && ts[k] == d[i];
    }
  }

  /** The tokens the `p[STY]` form keeps: residues and phospho groups. */
  function Core(ts: seq<Token>): seq<Token> {
    Drop(Drop(Drop(ts, Terminus), Acetyl), Oxidation)
  }

  lemma CoreWellFormed(ts: seq<Token>)
    requires WellFormed(ts)
    ensures WellFormed(Core(ts))
    ensures forall u :: u in Core(ts) ==> u.Residue? || u.Phospho?
  {
    DropWellFormed(ts, Terminus);
    DropWellFormed(Drop(ts, Terminus), Acetyl);
    DropWellFormed(Drop(Drop(ts, Terminus), Acetyl), Oxidation);
  }

  /** Cleaning a MaxQuant modified sequence writes each phospho site as `p`
      and its residue and keeps nothing else but the residues. */
  lemma CleanRender(ts: seq<Token>)
    requires WellFormed(ts)
    ensures CleanModifiedSequence(Str(Render(ts))) == Ok(Some(RenderSites(Core(ts), PSite)))
  {
    assert LetterResidues(ts);
    DropRender(ts, Terminus);
    var d1 := Drop(ts, Terminus);
    DropRender(d1, Acetyl);
    var d2 := Drop(d1, Acetyl);
    DropRender(d2, Oxidation);
    assert Text(Terminus) == "_";
    CoreWellFormed(ts);
    SubSitesRender(Core(ts), PSite);
  }

  // ---------------------------------------------------------------------------
  // count_phos

  function CountPhos(modseq: PyValue): (r: Option<nat>)
    ensures r.Some? <==> modseq.Str?
  {
    if modseq.Str? then Some(Count(modseq.text, 'p')) else None
  }

  lemma {:induction false} DropCountPhospho(ts: seq<Token>, t: Token)
    requires !t.Phospho?
    ensures CountPhospho(Drop(ts, t)) == CountPhospho(ts)
    decreases |ts|
  {
    if ts != [] {
      DropCountPhospho(ts[1..], t);
      if ts[0] != t {
        assert ([ts[0]] + Drop(ts[1..], t))[1..] == Drop(ts[1..], t);
      }
    }
  }

  lemma {:induction false} CountMarks(ts: seq<Token>)
    requires WellFormed(ts)
    requires forall u :: u in ts ==> u.Residue? || u.Phospho?
    ensures Count(RenderSites(ts, PSite), 'p') == CountPhospho(ts)
    decreases |ts|
  {
    if ts != [] {
      WellFormedHead(ts);
      assert ts[0] in ts;
      if |ts| >= 2 && ts[0].Residue? && ts[1].Phospho? {
        WellFormedTail(ts, 2);
        assert forall u :: u in ts[2..] ==> u in ts;
        CountMarks(ts[2..]);
        CountAppend(PSite(ts[0].aa), RenderSites(ts[2..], PSite), 'p');
        assert ts[1..][1..] == ts[2..];
        assert ts[0].aa != 'p';
      } else {
        WellFormedTail(ts, 1);
        assert forall u :: u in ts[1..] ==> u in ts;
        CountMarks(ts[1..]);
        CountAppend(Text(ts[0]), RenderSites(ts[1..], PSite), 'p');
        assert ts[0].Residue?;
        assert ts[0].aa != 'p';
      }
    }
  }

  /** On a cleaned MaxQuant sequence, `count_phos` counts the phospho groups. */
  lemma CountPhosClean(ts: seq<Token>)
    requires WellFormed(ts)
    ensures CountPhos(Str(Cleaned(Render(ts)))) == Some(CountPhospho(ts))
  {
    CleanRender(ts);
    CoreWellFormed(ts);
    CountMarks(Core(ts));
    DropCountPhospho(ts, Terminus);
    DropCountPhospho(Drop(ts, Terminus), Acetyl);
    DropCountPhospho(Drop(Drop(ts, Terminus), Acetyl), Oxidation);
  }

  // ---------------------------------------------------------------------------
  // substitute_modifications

  /** `pS` to `1`, then `pT` to `2`, then `pY` to `3`. */
  function Substituted(s: string): string {
    ReplaceAll(ReplaceAll(ReplaceAll(s, "pS", "1"), "pT", "2"), "pY", "3")
  }

  /** The items' results in order, or the first error among them. */
  function Collect(rs: seq<Result<PyValue>>): (r: Result<seq<PyValue>>)
    ensures r.Ok? <==> forall i :: 0 <= i < |rs| ==> rs[i].Ok?
    ensures r.Ok? ==> |r.value| == |rs| && forall i :: 0 <= i < |rs| ==> r.value[i] == rs[i].value
    ensures r.Err? ==> exists i :: 0 <= i < |rs| && rs[i] == Err(r.error) && forall j :: 0 <= j < i ==> rs[j].Ok?
    decreases |rs|
  {
    if rs == [] then Ok([])
    else if rs[0].Err? then Err(rs[0].error)
    else
      var rest := Collect(rs[1..]);
      assert forall i :: 1 <= i < |rs| ==> rs[i] == rs[1..][i - 1];
      match rest
      case Ok(vs) => Ok([rs[0].value] + vs)
      case Err(e) =>
        var k :| 0 <= k < |rs[1..]| && rs[1..][k] == Err(e) && forall j :: 0 <= j < k ==> rs[1..][j].Ok?;
        assert rs[k + 1] == Err(e);
        Err(e)
  }

  /** The first error among the results is the one collected. */
  lemma CollectFirstError(rs: seq<Result<PyValue>>, i: nat)
    requires i < |rs| && rs[i].Err? && forall j :: 0 <= j < i ==> rs[j].Ok?
    ensures Collect(rs) == Err(rs[i].error)
  {
    var r := Collect(rs);
    var k :| 0 <= k < |rs| && rs[k] == Err(r.error) && forall j :: 0 <= j < k ==> rs[j].Ok?;
    assert k == i;
  }

  /** `substitute_modifications`: strings are rewritten, lists item by item in
      order with the first error raised, NaN passes, anything else is refused. */
  function SubstituteValue(v: PyValue): (r: Result<PyValue>)
    ensures v.Nan? ==> r == Ok(Nan)
    ensures v.Number? ==> r.Err? && r.error.ValueError?
    ensures v.Str? ==> r.Ok? && r.value.Str?
    ensures v.List? ==> (r.Ok? <==> forall i :: 0 <= i < |v.items| ==> SubstituteValue(v.items[i]).Ok?)
    ensures v.List? && r.Ok? ==> r.value.List? && |r.value.items| == |v.items|
    ensures v.List? && r.Ok? ==> forall i :: 0 <= i < |v.items| ==> r.value.items[i] == SubstituteValue(v.items[i]).value
    decreases v
  {
    match v
    case Str(s) => Ok(Str(Substituted(s)))
    case List(items) =>
      var rs := seq(|items|, i requires 0 <= i < |items| => SubstituteValue(items[i]));
      assert forall i :: 0 <= i < |items| ==> rs[i] == SubstituteValue(items[i]);
      (match Collect(rs)
       case Ok(vs) => Ok(List(vs))
       case Err(e) => Err(e))
    case Nan => Ok(Nan)
    case Number(_) => Err(ValueError("String, string list, or np.NaN required for modified sequences"))
  }

  method SubstituteModifications(peps: PyValue) returns (r: Result<PyValue>)
    ensures r == SubstituteValue(peps)
    decreases peps
  {
    match peps
    case Str(s) =>
      // each `re.search` guard only skips a substitution that would change nothing
      var t := ReplaceAll(s, "pS", "1");
      t := ReplaceAll(t, "pT", "2");
      t := ReplaceAll(t, "pY", "3");
      r := Ok(Str(t));
    case List(items) =>
      ghost var rs := seq(|items|, i requires 0 <= i < |items| => SubstituteValue(items[i]));
      var newlist: seq<PyValue> := [];
      var i := 0;
      while i < |items|
        invariant 0 <= i <= |items|
        invariant |newlist| == i
        invariant forall j :: 0 <= j < i ==> rs[j].Ok? && newlist[j] == rs[j].value
      {
        var item := SubstituteModifications(items[i]);
        if item.Err? {
          assert rs[i] == item;
          CollectFirstError(rs, i);
          return item;
        }
        newlist := newlist + [item.value];
        i := i + 1;
      }
      assert Collect(rs).Ok?;
      assert Collect(rs).value == newlist;
      r := Ok(List(newlist));
    case Nan =>
      r := Ok(Nan);
    case Number(_) =>
      r := Err(ValueError("String, string list, or np.NaN required for modified sequences"));
  }

  /** A phospho site after the first rewrite. */
  function SerineDigit(c: char): string {
    if c == 'S' then "1" else ['p', c]
  }

  /** A phospho site after the second rewrite. */
  function SerineThreonineDigits(c: char): string {
    if c == 'S' then "1" else if c == 'T' then "2" else ['p', c]
  }

  /** The digit a phospho site becomes. */
  function DigitSite(c: char): string {
    if c == 'S' then "1" else if c == 'T' then "2" else if c == 'Y' then "3" else ['p', c]
  }

  /** The rewrites of a phospho site so far: `p` and the residue, or one other character. */
  ghost predicate SiteForms(f: char -> string) {
    forall c :: IsAcceptor(c) ==> f(c) == ['p', c] || (|f(c)| == 1 && f(c)[0] != 'p')
  }

  /** `g` is `f` after rewriting `p<x>` to `d`. */
  ghost predicate RewritesTo(f: char -> string, g: char -> string, x: char, d: char) {
    forall c :: IsAcceptor(c) ==> g(c) == (if c == x && f(c) == ['p', c] then [d] else f(c))
  }

  lemma SiteStep(c: char, rest: string, f: char -> string, g: char -> string, x: char, d: char)
    requires IsAcceptor(c) && IsAcceptor(x) && SiteForms(f) && RewritesTo(f, g, x, d)
    ensures ReplaceAll(f(c) + rest, ['p', x], [d]) == g(c) + ReplaceAll(rest, ['p', x], [d])
  {
    var pat := ['p', x];
    if f(c) == ['p', c] {
      if c == x {
        ReplaceAllPrefixPat(rest, pat, [d]);
      } else {
        OtherSite(c, rest, x, d);
      }
    } else {
      ReplaceAllPrefixChar(f(c)[0], rest, pat, [d]);
      assert f(c) == [f(c)[0]];
    }
  }

  /** `p<c>` for another acceptor `c` is left alone by the rewrite of `p<x>`. */
  lemma OtherSite(c: char, rest: string, x: char, d: char)
    requires IsAcceptor(c) && c != x
    ensures ReplaceAll(['p', c] + rest, ['p', x], [d]) == ['p', c] + ReplaceAll(rest, ['p', x], [d])
  {
    var pat := ['p', x];
    var t := ['p', c] + rest;
    assert t[..2] == ['p', c];
    ReplaceAllSkipHead(t, pat, [d]);
    assert t[1..] == [c] + rest;
    ReplaceAllPrefixChar(c, rest, pat, [d]);
    assert ['p', c] == ['p'] + [c];
    ConsAssoc('p', [c], ReplaceAll(rest, pat, [d]));
  }

  /** One rewrite `p<x>` to `d` turns the sites on `x` still written `p<x>` into `d`. */
  lemma {:induction false} ReplaceSitePass(ts: seq<Token>, f: char -> string, g: char -> string, x: char, d: char)
    requires WellFormed(ts) && forall u :: u in ts ==> u.Residue? || u.Phospho?
    requires IsAcceptor(x) && SiteForms(f) && RewritesTo(f, g, x, d)
    ensures ReplaceAll(RenderSites(ts, f), ['p', x], [d]) == RenderSites(ts, g)
    decreases |ts|
  {
    if ts != [] {
      WellFormedHead(ts);
      assert ts[0] in ts;
      if |ts| >= 2 && ts[0].Residue? && ts[1].Phospho? {
        WellFormedTail(ts, 2);
        assert forall u :: u in ts[2..] ==> u in ts;
        ReplaceSitePass(ts[2..], f, g, x, d);
        var j := 0;
        assert ts[j + 1].Phospho? ==> IsAcceptor(ts[j].aa);
        SiteStep(ts[0].aa, RenderSites(ts[2..], f), f, g, x, d);
      } else {
        WellFormedTail(ts, 1);
        assert forall u :: u in ts[1..] ==> u in ts;
        ReplaceSitePass(ts[1..], f, g, x, d);
        assert ts[0].Residue?;
        ReplaceAllPrefixChar(ts[0].aa, RenderSites(ts[1..], f), ['p', x], [d]);
      }
    }
  }

  /** After cleaning, `substitute_modifications` writes every phospho site as
      its one digit, so each site is one character. */
  lemma SubstitutedSites(ts: seq<Token>)
    requires WellFormed(ts) && forall u :: u in ts ==> u.Residue? || u.Phospho?
    ensures Substituted(RenderSites(ts, PSite)) == RenderSites(ts, DigitSite)
  {
    ReplaceSitePass(ts, PSite, SerineDigit, 'S', '1');
    ReplaceSitePass(ts, SerineDigit, SerineThreonineDigits, 'T', '2');
    ReplaceSitePass(ts, SerineThreonineDigits, DigitSite, 'Y', '3');
    assert "pS" == ['p', 'S'] && "pT" == ['p', 'T'] && "pY" == ['p', 'Y'];
  }

  lemma SubstituteClean(ts: seq<Token>)
    requires WellFormed(ts)
    ensures SubstituteValue(Str(Cleaned(Render(ts)))) == Ok(Str(RenderSites(Core(ts), DigitSite)))
  {
    CleanRender(ts);
    CoreWellFormed(ts);
    SubstitutedSites(Core(ts));
  }

  // ---------------------------------------------------------------------------
  // get_single_item, get_main_object

  function GetSingleItem<T>(xs: seq<T>): (r: Result<T>)
    ensures r.Ok? <==> |xs| == 1
    ensures r.Ok? ==> r.value in xs
    ensures r.Err? ==> r.error.IndexError?
  {
    if |xs| == 1 then Ok(xs[0])
    else Err(IndexError("Multiple elements found in input, should only contain one element"))
  }

  /** `get_main_object`: the value when exactly one present entry is left. */
  function GetMainObject<T(!new)>(xs: seq<Option<T>>): (r: Option<T>)
    ensures forall v :: r == Some(v) <==> RemoveNanValues(xs) == [v]
  {
    var x := RemoveNanValues(xs);
    if |x| == 1 then
      assert x == [x[0]];
      Some(x[0])
    else None
  }

  lemma {:induction false} RemoveNanValuesUnique<T(!new)>(xs: seq<Option<T>>)
    requires NoDuplicates(xs)
    ensures NoDuplicates(RemoveNanValues(xs))
    decreases |xs|
  {
    if xs != [] {
      assert NoDuplicates(xs[1..]) by {
        forall i, j | 0 <= i < j < |xs[1..]| ensures xs[1..][i] != xs[1..][j] {
          assert xs[1..][i] == xs[i + 1] && xs[1..][j] == xs[j + 1];
        }
      }
      RemoveNanValuesUnique(xs[1..]);
    }
  }

  /** Applied to the set of a column, as the legacy `transfer` does, it is the
      veto reducer `get_unique_else_nan`. */
  lemma GetMainObjectOfSet<T(!new)>(xs: seq<Option<T>>)
    ensures GetMainObject(Distinct(xs)) == GetUniqueElseNan(xs)
  {
    var d := Distinct(xs);
    var x := RemoveNanValues(d);
    RemoveNanValuesUnique(d);
    forall v ensures x == [v] <==> OnlyValue(xs, v) {
      SingleDistinct(x, v);
      assert forall w :: w in x <==> Some(w) in xs;
    }
  }
}
