/**
  `secure_filename` on a POSIX system, and the event channels named with it.
  Inputs are taken after Unicode normalisation.
 */
module SecureName {
  import opened Text

  predicate IsAscii(c: char) { c < '\U{80}' }

  /** The characters kept by the final filter. */
  predicate Allowed(c: char) {
    'A' <= c <= 'Z' || 'a' <= c <= 'z' || '0' <= c <= '9' || c == '_' || c == '.' || c == '-'
  }

  predicate IsEdge(c: char) { c == '.' || c == '_' }

  function Filter(s: string, p: char -> bool): (r: string)
    ensures forall c <- r :: p(c)
  {
    if s == "" then "" else (if p(s[0]) then [s[0]] else "") + Filter(s[1..], p)
  }

  lemma {:induction false} FilterAll(s: string, p: char -> bool)
    ensures Filter(s, p) == s <==> forall c <- s :: p(c)
  {
    if s != "" {
      FilterAll(s[1..], p);
      if p(s[0]) {
        assert s == [s[0]] + s[1..];
      } else {
        FilterShrinks(s[1..], p);
      }
    }
  }

  lemma {:induction false} FilterShrinks(s: string, p: char -> bool)
    ensures |Filter(s, p)| <= |s|
  {
    if s != "" { FilterShrinks(s[1..], p); }
  }

  /** `s.replace(sep, " ")` */
  function ReplaceSep(s: string, sep: char): string {
    if s == "" then "" else [if s[0] == sep then ' ' else s[0]] + ReplaceSep(s[1..], sep)
  }

  /** The longest prefix without whitespace. */
  function Word(s: string): (w: string)
    ensures |w| <= |s|
    ensures s != "" && !IsSpace(s[0]) ==> w != ""
  {
    if s == "" || IsSpace(s[0]) then "" else [s[0]] + Word(s[1..])
  }

  /** `s.split()`: the maximal runs without whitespace. */
  function Words(s: string): seq<string>
    decreases |s|
  {
    if s == "" then []
    else if IsSpace(s[0]) then Words(s[1..])
    else [Word(s)] + Words(s[|Word(s)|..])
  }

  /** Only kept characters, and no "." or "_" at an edge. */
  predicate IsSecure(s: string) {
    (forall c <- s :: Allowed(c)) && TrimmedOf(s, IsEdge)
  }

  function SecureFilename(filename: string): (r: string)
    ensures IsSecure(r)
  {
    var ascii := Filter(filename, IsAscii);
    var spaced := ReplaceSep(ascii, '/');
    var joined := Join(Words(spaced), "_");
    var kept := Filter(joined, Allowed);
    StripWithin(kept, IsEdge);
    Strip(kept, IsEdge)
  }

  /** The names left unchanged are exactly the secure ones. */
  lemma SecureFixedPoints(s: string)
    ensures SecureFilename(s) == s <==> IsSecure(s)
  {
    if IsSecure(s) {
      FilterAll(s, IsAscii);
      NothingToReplace(s, '/');
      if s != "" {
        WholeWord(s);
        assert s[|s|..] == "";
        assert Words(s) == [s];
      }
      assert Join(Words(s), "_") == s;
      FilterAll(s, Allowed);
    }
  }

  lemma {:induction false} WholeWord(s: string)
    requires forall c <- s :: Allowed(c)
    ensures Word(s) == s
  {
    if s != "" {
      assert Allowed(s[0]);
      WholeWord(s[1..]);
    }
  }

  lemma {:induction false} NothingToReplace(s: string, sep: char)
    requires sep !in s
    ensures ReplaceSep(s, sep) == s
  {
    if s != "" {
      NothingToReplace(s[1..], sep);
      assert s == [s[0]] + s[1..];
    }
  }

  lemma SecureHasNoSeparator(s: string)
    requires IsSecure(s)
    ensures forall c <- s :: c != '/' && !IsSpace(c)
    ensures s != "" ==> s[0] != '.' && s[0] != '_' && s[|s| - 1] != '.' && s[|s| - 1] != '_'
  {
    forall c <- s ensures c != '/' && !IsSpace(c) {
      assert Allowed(c);
    }
  }

  /** Securing twice is securing once; the result holds no separator, no whitespace and no edge "." or "_". */
  lemma SecureIdempotent(s: string)
    ensures var r := SecureFilename(s);
            && SecureFilename(r) == r
            && (forall c <- r :: c != '/' && !IsSpace(c))
            && (r != "" ==> r[0] != '.' && r[0] != '_' && r[|r| - 1] != '.' && r[|r| - 1] != '_')
  {
    SecureFixedPoints(SecureFilename(s));
    SecureHasNoSeparator(SecureFilename(s));
  }

  /** The characters kept inside a name are the letters and digits of ASCII, "_", "." and "-". */
  lemma KeptCharacters(c: char)
    ensures SecureFilename("a" + [c] + "b") == "a" + [c] + "b" <==>
            'A' <= c <= 'Z' || 'a' <= c <= 'z' || '0' <= c <= '9' || c in "_.-"
  {
    var s := "a" + [c] + "b";
    SecureFixedPoints(s);
    hide SecureFilename;
    assert s[1] == c && c in s;
    assert IsSecure(s) <==> Allowed(c);
  }

  /** A character that separates words. */
  predicate Separates(c: char) { IsAscii(c) && (IsSpace(c) || c == '/') }

  lemma {:induction false} FilterAppend(a: string, b: string, p: char -> bool)
    ensures Filter(a + b, p) == Filter(a, p) + Filter(b, p)
  {
    if a == "" {
      assert a + b == b;
    } else {
      assert (a + b)[1..] == a[1..] + b;
      FilterAppend(a[1..], b, p);
    }
  }

  lemma {:induction false} ReplaceAppend(a: string, b: string, sep: char)
    ensures ReplaceSep(a + b, sep) == ReplaceSep(a, sep) + ReplaceSep(b, sep)
  {
    if a == "" {
      assert a + b == b;
    } else {
      assert (a + b)[1..] == a[1..] + b;
      ReplaceAppend(a[1..], b, sep);
    }
  }

  /** What the steps before the joining make of a text. */
  function Spaced(s: string): string { ReplaceSep(Filter(s, IsAscii), '/') }

  lemma SameWords(a: string, b: string)
    requires Words(Spaced(a)) == Words(Spaced(b))
    ensures SecureFilename(a) == SecureFilename(b)
  {
    SecuredWords(a);
    SecuredWords(b);
  }

  lemma SecuredWords(a: string)
    ensures SecureFilename(a) == Strip(Filter(Join(Words(Spaced(a)), "_"), Allowed), IsEdge)
  {
  }

  /** Characters outside ASCII are dropped, wherever they are. */
  lemma NonAsciiIsDropped(a: string, c: char, b: string)
    requires !IsAscii(c)
    ensures SecureFilename(a + [c] + b) == SecureFilename(a + b)
  {
    FilterAppend(a + [c], b, IsAscii);
    FilterAppend(a, [c], IsAscii);
    FilterAppend(a, b, IsAscii);
    assert Filter([c], IsAscii) == "";
    hide Filter, SecureFilename, Words;
    assert Filter(a, IsAscii) + "" == Filter(a, IsAscii);
    assert Filter(a + [c] + b, IsAscii) == Filter(a + b, IsAscii);
    SameWords(a + [c] + b, a + b);
  }

  /** The words of a text with a separator between two parts of it are those of both parts. */
  lemma {:induction false} WordsSplit(a: string, c: char, b: string)
    requires IsSpace(c)
    ensures Words(a + [c] + b) == Words(a) + Words(b)
    decreases |a|
  {
    var s := a + [c] + b;
    if a == "" {
      assert s[1..] == b;
    } else if IsSpace(a[0]) {
      assert s[1..] == a[1..] + [c] + b;
      WordsSplit(a[1..], c, b);
    } else {
      WordOfPart(a, c, b);
      var w := |Word(a)|;
      assert s[w..] == a[w..] + [c] + b;
      WordsSplit(a[w..], c, b);
    }
  }

  lemma {:induction false} WordOfPart(a: string, c: char, b: string)
    requires IsSpace(c)
    ensures Word(a + [c] + b) == Word(a)
  {
    var s := a + [c] + b;
    if a != "" && !IsSpace(a[0]) {
      assert s[1..] == a[1..] + [c] + b;
      WordOfPart(a[1..], c, b);
    }
  }

  lemma SpacedSplit(a: string, c: char, b: string)
    requires Separates(c)
    ensures Words(Spaced(a + [c] + b)) == Words(Spaced(a)) + Words(Spaced(b))
  {
    FilterAppend(a + [c], b, IsAscii);
    FilterAppend(a, [c], IsAscii);
    assert Filter([c], IsAscii) == [c];
    var fa, fb := Filter(a, IsAscii), Filter(b, IsAscii);
    ReplaceAppend(fa + [c], fb, '/');
    ReplaceAppend(fa, [c], '/');
    var space := if c == '/' then ' ' else c;
    assert ReplaceSep([c], '/') == [space];
    WordsSplit(Spaced(a), space, Spaced(b));
  }

  /** Runs of separators count once, and those at the edges do not count. */
  lemma SeparatorsCollapse(a: string, c: char, d: char, b: string)
    requires Separates(c) && Separates(d)
    ensures SecureFilename(a + [c] + ([d] + b)) == SecureFilename(a + [c] + b)
    ensures SecureFilename([c] + a) == SecureFilename(a) == SecureFilename(a + [c])
  {
    InnerSeparators(a, c, d, b);
    EdgeSeparators(a, c);
    hide Words, Spaced, SecureFilename;
    SameWords(a + [c] + ([d] + b), a + [c] + b);
    SameWords([c] + a, a);
    SameWords(a + [c], a);
  }

  lemma InnerSeparators(a: string, c: char, d: char, b: string)
    requires Separates(c) && Separates(d)
    ensures Words(Spaced(a + [c] + ([d] + b))) == Words(Spaced(a + [c] + b))
  {
    hide Words, Spaced, Separates;
    SpacedSplit(a, c, [d] + b);
    SpacedSplit(a, c, b);
    EdgeSeparators(b, d);
  }

  lemma EdgeSeparators(a: string, c: char)
    requires Separates(c)
    ensures Words(Spaced([c] + a)) == Words(Spaced(a)) == Words(Spaced(a + [c]))
  {
    SpacedSplit("", c, a);
    SpacedSplit(a, c, "");
    NoWords();
    hide Words, Spaced;
    assert "" + [c] + a == [c] + a && a + [c] + "" == a + [c];
    assert [] + Words(Spaced(a)) == Words(Spaced(a)) == Words(Spaced(a)) + [];
  }

  lemma NoWords()
    ensures Words(Spaced("")) == []
  {
  }

  predicate AllSecure(words: seq<string>) {
    forall i | 0 <= i < |words| :: words[i] != "" && IsSecure(words[i])
  }

  /** Secure words between separators are joined by underscores. */
  lemma {:induction false} WordsAreJoined(words: seq<string>, c: char)
    requires Separates(c) && words != [] && AllSecure(words)
    ensures Words(Spaced(Join(words, [c]))) == words
  {
    SecureIsWord(words[0]);
    if |words| > 1 {
      WordsAreJoined(words[1..], c);
      SpacedSplit(words[0], c, Join(words[1..], [c]));
      hide Words, Spaced, IsSecure;
      assert words == [words[0]] + words[1..];
    }
  }

  lemma SecureIsWord(w: string)
    requires w != "" && IsSecure(w)
    ensures Words(Spaced(w)) == [w]
  {
    FilterAll(w, IsAscii);
    NothingToReplace(w, '/');
    WholeWord(w);
    assert w[|w|..] == "";
  }

  /** A path of secure names is one name, with underscores between them. */
  lemma PathsAreFlattened(words: seq<string>, c: char)
    requires Separates(c) && words != [] && AllSecure(words)
    ensures SecureFilename(Join(words, [c])) == Join(words, "_")
  {
    WordsAreJoined(words, c);
    JoinIsSecure(words);
    var joined := Join(words, "_");
    FilterAll(joined, Allowed);
    hide Words, Join, IsSecure;
    assert Spaced(Join(words, [c])) == ReplaceSep(Filter(Join(words, [c]), IsAscii), '/');
  }

  lemma {:induction false} JoinIsSecure(words: seq<string>)
    requires words != [] && AllSecure(words)
    ensures var joined := Join(words, "_");
            IsSecure(joined) && joined != "" && joined[0] == words[0][0]
  {
    if |words| > 1 {
      JoinIsSecure(words[1..]);
      SecureJoin(words[0], Join(words[1..], "_"));
    }
  }

  lemma SecureJoin(a: string, b: string)
    requires IsSecure(a) && IsSecure(b) && a != "" && b != ""
    ensures IsSecure(a + "_" + b) && (a + "_" + b)[0] == a[0]
  {
    var s := a + "_" + b;
    assert s[|s| - 1] == b[|b| - 1];
    assert forall c <- s :: c in a || c == '_' || c in b;
  }

  // ---------- channels ----------

  /** `generate_channel` */
  function GenerateChannel(projectid: string, execid: string): string {
    SecureFilename(projectid) + "." + SecureFilename(execid)
  }

  /** `PROJECT_ID_ALPHABET` */
  predicate IsProjectId(s: string) {
    forall c <- s :: '0' <= c <= '9' || 'a' <= c <= 'z'
  }

  /** `b` is `a`, a dot, and more that may begin a secured name. */
  predicate Extends(a: string, b: string) {
    |a| + 1 < |b| && a + "." <= b && !IsEdge(b[|a| + 1])
  }

  /** Two channels that agree split at different dots only if the longer name extends the shorter. */
  lemma LongerExtends(a: string, s: string, b: string, s': string)
    requires IsSecure(s) && IsSecure(b) && |a| < |b|
    requires a + "." + s == b + "." + s'
    ensures Extends(a, b)
  {
    var c := a + "." + s;
    assert c[..|a|] == b[..|a|] == a && c[|a|] == b[|a|] == '.';
    assert b[..|a| + 1] == a + ".";
    assert c[|a| + 1] == s[0] == b[|a| + 1];
  }

  /** The execution ids that make an extended name meet the shorter one. */
  lemma ExtendedMeets(a: string, b: string) returns (s: string)
    requires IsSecure(b) && Extends(a, b)
    ensures IsSecure(s) && a + "." + s == b + "." + "x"
  {
    var rest := b[|a| + 1..];
    s := rest + ".x";
    assert forall c <- rest :: c in b;
    assert b == a + "." + rest;
    assert "." + "x" == ".x" && a + "." + (rest + ".x") == (a + "." + rest) + ".x";
  }

  /** Two projects have a channel in common exactly when they are secured alike or one extends the other. */
  lemma ChannelsMeetExactly(p: string, p': string)
    ensures var a, b := SecureFilename(p), SecureFilename(p');
            (exists e, e' :: GenerateChannel(p, e) == GenerateChannel(p', e')) <==>
            a == b || Extends(a, b) || Extends(b, a)
  {
    hide SecureFilename, Extends, IsSecure;
    var a, b := SecureFilename(p), SecureFilename(p');
    if e, e' :| GenerateChannel(p, e) == GenerateChannel(p', e') {
      MeetingNames(a, SecureFilename(e), b, SecureFilename(e'));
    }
    if a == b {
      assert GenerateChannel(p, "") == GenerateChannel(p', "");
    } else if Extends(a, b) {
      var e, e' := MeetAt(p, p');
    } else if Extends(b, a) {
      var e, e' := MeetAt(p', p);
      assert GenerateChannel(p, e') == GenerateChannel(p', e);
    }
  }

  lemma MeetingNames(a: string, s: string, b: string, s': string)
    requires IsSecure(a) && IsSecure(s) && IsSecure(b) && IsSecure(s')
    requires a + "." + s == b + "." + s'
    ensures (a == b && s == s') || Extends(a, b) || Extends(b, a)
  {
    if |a| < |b| {
      LongerExtends(a, s, b, s');
    } else if |b| < |a| {
      LongerExtends(b, s', a, s);
    } else {
      var c := a + "." + s;
      assert c[..|a|] == a && c[..|a|] == b && c[|a| + 1..] == s && c[|a| + 1..] == s';
    }
  }

  lemma MeetAt(p: string, p': string) returns (e: string, e': string)
    requires Extends(SecureFilename(p), SecureFilename(p'))
    ensures GenerateChannel(p, e) == GenerateChannel(p', e')
  {
    hide SecureFilename, Extends, IsSecure;
    e' := "x";
    XIsItself();
    e := ExtendedMeets(SecureFilename(p), SecureFilename(p'));
    SecureFixedPoints(e);
  }

  lemma XIsItself()
    ensures SecureFilename("x") == "x"
  {
    hide SecureFilename;
    SecureFixedPoints("x");
  }

  /**
    Names of which neither extends the other share no channel unless they and their
    executions are secured alike; ids over the project alphabet are such names, and secured as they are.
   */
  lemma ChannelsAreDisjoint(p: string, e: string, p': string, e': string)
    ensures var a, b := SecureFilename(p), SecureFilename(p');
            !Extends(a, b) && !Extends(b, a) ==>
              (GenerateChannel(p, e) == GenerateChannel(p', e') <==> a == b && SecureFilename(e) == SecureFilename(e'))
    ensures IsProjectId(p) && IsProjectId(p') ==>
              (GenerateChannel(p, e) == GenerateChannel(p', e') <==> p == p' && SecureFilename(e) == SecureFilename(e'))
  {
    var a, b := SecureFilename(p), SecureFilename(p');
    hide SecureFilename, IsSecure;
    if GenerateChannel(p, e) == GenerateChannel(p', e') {
      MeetingNames(a, SecureFilename(e), b, SecureFilename(e'));
    }
    if IsProjectId(p) && IsProjectId(p') {
      ProjectIdsAreSecure(p);
      ProjectIdsAreSecure(p');
      ExtendingTakesADot(p, p');
      ExtendingTakesADot(p', p);
    }
  }

  lemma ExtendingTakesADot(a: string, b: string)
    ensures Extends(a, b) ==> '.' in b
  {
    if Extends(a, b) {
      assert (a + ".")[|a|] == b[|a|];
    }
  }

  lemma ProjectIdsAreSecure(p: string)
    requires IsProjectId(p)
    ensures SecureFilename(p) == p && '.' !in p
  {
    SecureFixedPoints(p);
    hide SecureFilename;
    if p != "" {
      assert p[0] in p && p[|p| - 1] in p;
    }
  }

  /** For one: project ids joined by a dot meet the first of them. */
  lemma DottedProjectsCollide(p: string, q: string)
    requires IsProjectId(p) && IsProjectId(q) && p != "" && q != ""
    ensures exists e, e' :: GenerateChannel(p, e) == GenerateChannel(p + "." + q, e')
  {
    ProjectIdsAreSecure(p);
    DottedIsSecure(p, q);
    SecureFixedPoints(p + "." + q);
    assert q[0] in q && (p + "." + q)[|p| + 1] == q[0];
    hide SecureFilename;
    assert p + "." <= p + "." + q;
    ChannelsMeetExactly(p, p + "." + q);
  }

  lemma DottedIsSecure(p: string, q: string)
    requires IsProjectId(p) && IsProjectId(q) && p != "" && q != ""
    ensures IsSecure(p + "." + q)
  {
    var s := p + "." + q;
    assert s[0] == p[0] && p[0] in p;
    assert s[|s| - 1] == q[|q| - 1] && q[|q| - 1] in q;
  }
}
