/**
  The secrets file: one `key=token` line for each variable, where a token is an encrypted
  value. Encryption is any relation that decryption inverts, with tokens over the url-safe
  alphabet of section 5 of RFC 4648.
 */
module Secrets {
  import opened Wrappers
  import opened Text

  type Vars = map<string, string>

  /** `s.replace(c, "")` */
  function Without(s: string, c: char): (r: string)
    ensures c !in s ==> r == s
  {
    if s == "" then "" else if s[0] == c then Without(s[1..], c) else [s[0]] + Without(s[1..], c)
  }

  predicate IsNewline(c: char) { c == '\n' }

  /** `_parse_var_line`; `None` is the IndexError of a line without "=". */
  function ParseVarLine(line: string): Option<(string, string)> {
    var i := Find(line, '=');
    if i == |line| then None
    else Some((line[..i], Strip(Without(line[i + 1..], '"'), IsNewline)))
  }

  /** The dictionary `vars` after updating it with each line. */
  function UpdatedWith(vars: Vars, lines: seq<string>): Option<Vars>
    decreases |lines|
  {
    if lines == [] then Some(vars)
    else match ParseVarLine(lines[0])
      case None => None
      case Some((k, v)) => UpdatedWith(vars[k := v], lines[1..])
  }

  /** What a variables file holds; a missing file holds nothing. */
  function VarsIn(file: Option<string>): Option<Vars> {
    if file.None? then Some(map[]) else UpdatedWith(map[], IterLines(file.value))
  }

  /** `_open_vars_file` */
  method OpenVarsFile(file: Option<string>) returns (vars: Option<Vars>)
    ensures vars == VarsIn(file)
  {
    match file
    case None => vars := Some(map[]);
    case Some(text) =>
      var lines := IterLines(text);
      var vars_: Vars := map[];
      for n := 0 to |lines|
        invariant VarsIn(file) == UpdatedWith(vars_, lines[n..])
      {
        var parsed := ParseVarLine(lines[n]);
        assert lines[n..][1..] == lines[n + 1..];
        if parsed.None? {
          return None;
        }
        vars_ := vars_[parsed.value.0 := parsed.value.1];
      }
      vars := Some(vars_);
  }

  datatype Loaded = Loaded(vars: Vars) | IndexError | InvalidToken

  /** `load` with a private key; `decrypt` is partial because a token may be rejected. */
  function Load(decrypt: string -> Option<string>, file: Option<string>): Loaded {
    match VarsIn(file)
    case None => IndexError
    case Some(vars) =>
      if exists k <- vars :: decrypt(vars[k]).None? then InvalidToken
      else Loaded(map k <- vars :: decrypt(vars[k]).value)
  }

  /** An entry of a dictionary with the token that its value was encrypted to. */
  datatype Entry = Entry(key: string, plain: string, token: string)

  predicate UrlSafe(token: string) {
    forall c <- token :: 'A' <= c <= 'Z' || 'a' <= c <= 'z' || '0' <= c <= '9' || c == '-' || c == '_' || c == '='
  }

  /** The entries are those of a dictionary, encrypted. */
  predicate Encrypted(es: seq<Entry>, decrypt: string -> Option<string>) {
    && (forall i, j | 0 <= i < j < |es| :: es[i].key != es[j].key)
    && (forall e <- es :: UrlSafe(e.token) && decrypt(e.token) == Some(e.plain))
  }

  function LineOf(e: Entry): string {
    e.key + "=" + e.token
  }

  function LinesOf(es: seq<Entry>): seq<string> {
    if es == [] then [] else [LineOf(es[0])] + LinesOf(es[1..])
  }

  /** `write_secrets`: the text of the file. */
  function Encoded(es: seq<Entry>): string {
    Join(LinesOf(es), "\n")
  }

  /** A key that survives being written on a line of its own, before a "=". */
  predicate Plain(key: string) {
    '=' !in key && '\n' !in key && '\r' !in key
  }

  /** The dictionary with exactly these keys and values. */
  predicate IsDictOf(vars: Vars, es: seq<Entry>) {
    && (forall e <- es :: e.key in vars && vars[e.key] == e.plain)
    && (forall k <- vars :: exists e <- es :: e.key == k)
  }

  // ---- Reading what was written ----

  lemma StripEnd(token: string)
    requires '\n' !in token
    ensures Strip(token + "\n", IsNewline) == token
  {
    if token == "" {
      StripNewline(token + "\n");
    } else {
      assert token[0] in token && token[|token| - 1] in token;
      RStripSnoc(token, '\n');
    }
  }

  lemma StripNewline(s: string)
    requires |s| == 1 && IsNewline(s[0])
    ensures Strip(s, IsNewline) == ""
  {
    assert s[1..] == "";
  }

  lemma RStripSnoc(s: string, c: char)
    requires IsNewline(c)
    ensures RStrip(s + [c], IsNewline) == RStrip(s, IsNewline)
  {
    assert (s + [c])[..|s|] == s;
  }

  /** Without line breaks. */
  predicate OneLine(s: string) { '\n' !in s && '\r' !in s }

  lemma {:induction false} WithoutAppend(a: string, b: string, c: char)
    ensures Without(a + b, c) == Without(a, c) + Without(b, c)
  {
    if a == "" {
      assert a + b == b;
    } else {
      assert (a + b)[1..] == a[1..] + b;
      WithoutAppend(a[1..], b, c);
    }
  }

  lemma {:induction false} WithoutWithin(s: string, c: char)
    ensures c !in Without(s, c) && forall d <- Without(s, c) :: d in s
  {
    if s != "" {
      WithoutWithin(s[1..], c);
    }
  }

  /** Surrounding quotes go, and what holds no quote stays. */
  lemma Unquoted(value: string)
    requires '"' !in value
    ensures Without("\"" + value + "\"", '"') == value
  {
    WithoutAppend("\"" + value, "\"", '"');
    WithoutAppend("\"", value, '"');
    assert Without("\"", '"') == Without("\""[1..], '"') == "";
  }

  /** A value loses its quotes and the end of its line. */
  lemma ValueParses(raw: string, end: string)
    requires OneLine(raw) && (end == "" || end == "\n")
    ensures Strip(Without(raw + end, '"'), IsNewline) == Without(raw, '"')
  {
    WithoutAppend(raw, end, '"');
    WithoutWithin(raw, '"');
    var value := Without(raw, '"');
    assert Without(end, '"') == end;
    assert '\n' !in value;
    hide Without, Strip;
    if end == "" {
      assert value + end == value;
      NothingToStrip(value);
    } else {
      StripEnd(value);
    }
  }

  lemma NothingToStrip(s: string)
    requires '\n' !in s
    ensures Strip(s, IsNewline) == s
  {
    if s != "" {
      assert s[0] in s && s[|s| - 1] in s;
    }
  }

  lemma LineParses(e: Entry, end: string)
    requires Plain(e.key) && OneLine(e.token) && (end == "" || end == "\n")
    ensures ParseVarLine(LineOf(e) + end) == Some((e.key, Without(e.token, '"')))
  {
    var line := LineOf(e) + end;
    assert line == e.key + ['='] + (e.token + end);
    FindFirst(e.key, '=', e.token + end);
    SplitAt(e.key, '=', e.token + end);
    ValueParses(e.token, end);
    hide Without, Strip, OneLine, Find;
  }

  /** The values on the lines by key, after `vars`. */
  function WithTokens(vars: Vars, es: seq<Entry>): Vars
    decreases |es|
  {
    if es == [] then vars else WithTokens(vars[es[0].key := Without(es[0].token, '"')], es[1..])
  }

  lemma {:induction false} LinesReadBack(vars: Vars, es: seq<Entry>)
    requires forall e <- es :: Plain(e.key) && OneLine(e.token)
    ensures UpdatedWith(vars, IterLines(Encoded(es))) == Some(WithTokens(vars, es))
    decreases |es|
  {
    if |es| == 1 {
      FinalLine(vars, es[0]);
    } else if es != [] {
      LinesReadBack(vars[es[0].key := Without(es[0].token, '"')], es[1..]);
      EncodedStep(es);
      MoreLines(vars, es[0], Encoded(es[1..]));
    }
  }

  lemma FinalLine(vars: Vars, e: Entry)
    requires Plain(e.key) && OneLine(e.token)
    ensures UpdatedWith(vars, IterLines(Encoded([e]))) == Some(WithTokens(vars, [e]))
  {
    var line := LineOf(e);
    assert LinesOf([e]) == [line];
    assert Encoded([e]) == line;
    LineParses(e, "");
    LineIsLine(e);
    UnendedLine(line);
    hide Encoded, IterLines, ParseVarLine, LineOf, Plain, OneLine;
    assert line + "" == line;
    var value := Without(e.token, '"');
    assert UpdatedWith(vars[e.key := value], []) == Some(vars[e.key := value]);
  }

  lemma MoreLines(vars: Vars, e: Entry, rest: string)
    requires Plain(e.key) && OneLine(e.token)
    ensures UpdatedWith(vars, IterLines(LineOf(e) + "\n" + rest)) ==
            UpdatedWith(vars[e.key := Without(e.token, '"')], IterLines(rest))
  {
    LineParses(e, "\n");
    LineIsLine(e);
    IterLine(LineOf(e), rest);
    hide IterLines, ParseVarLine, LineOf;
    var first, lines := [LineOf(e) + "\n"], IterLines(rest);
    assert (first + lines)[1..] == lines;
  }

  lemma LineIsLine(e: Entry)
    requires Plain(e.key) && OneLine(e.token)
    ensures LineOf(e) != "" && '\n' !in LineOf(e) && '\r' !in LineOf(e)
  {
    assert LineOf(e) == e.key + "=" + e.token;
  }

  lemma UnendedLine(line: string)
    requires line != "" && '\n' !in line && '\r' !in line
    ensures IterLines(line) == [line]
  {
    assert forall i | 0 <= i < |line| :: line[i] != '\n' && line[i] != '\r';
  }

  lemma EncodedStep(es: seq<Entry>)
    requires |es| > 1
    ensures Encoded(es) == LineOf(es[0]) + "\n" + Encoded(es[1..])
  {
    assert LinesOf(es)[1..] == LinesOf(es[1..]);
    assert LinesOf(es[1..]) == [LineOf(es[1])] + LinesOf(es[2..]);
  }

  /** The last line of a key decides. */
  lemma {:induction false} LastWins(vars: Vars, es: seq<Entry>, i: nat)
    requires i < |es| && forall j | i < j < |es| :: es[j].key != es[i].key
    ensures var r := WithTokens(vars, es); es[i].key in r && r[es[i].key] == Without(es[i].token, '"')
    decreases |es|
  {
    var vars' := vars[es[0].key := Without(es[0].token, '"')];
    if i > 0 {
      LastWins(vars', es[1..], i - 1);
    } else {
      KeysOfLines(vars', es[1..], es[0].key);
    }
  }

  lemma {:induction false} KeysOfLines(vars: Vars, es: seq<Entry>, k: string)
    ensures k in WithTokens(vars, es) <==> k in vars || exists i | 0 <= i < |es| :: es[i].key == k
    ensures (forall i | 0 <= i < |es| :: es[i].key != k) && k in vars ==> WithTokens(vars, es)[k] == vars[k]
    decreases |es|
  {
    if es != [] {
      KeysOfLines(vars[es[0].key := Without(es[0].token, '"')], es[1..], k);
      if i :| 0 < i < |es| && es[i].key == k {
        assert es[1..][i - 1].key == k;
      }
    }
  }

  lemma TokensByKey(es: seq<Entry>)
    requires forall i, j | 0 <= i < j < |es| :: es[i].key != es[j].key
    requires forall e <- es :: '"' !in e.token
    ensures var r := WithTokens(map[], es);
            && (forall e <- es :: e.key in r && r[e.key] == e.token)
            && (forall k <- r :: exists e <- es :: e.key == k)
  {
    hide WithTokens;
    forall i | 0 <= i < |es|
      ensures var r := WithTokens(map[], es); es[i].key in r && r[es[i].key] == es[i].token
    {
      assert es[i] in es;
      LastWins(map[], es, i);
    }
    forall k | k in WithTokens(map[], es) ensures exists e <- es :: e.key == k {
      KeysOfLines(map[], es, k);
      var i :| 0 <= i < |es| && es[i].key == k;
      assert es[i] in es;
    }
  }

  lemma KeyIsPlain(line: string)
    requires IsLine(line) && '\r' !in line
    requires ParseVarLine(line).Some?
    ensures Plain(ParseVarLine(line).value.0)
  {
    var i := Find(line, '=');
    assert line[i] == '=';
    assert line[..i] <= line[..|line| - 1];
  }

  /** Whatever the text, a loaded key is plain. */
  lemma {:induction false} KeysArePlain(vars: Vars, lines: seq<string>)
    requires forall l <- lines :: IsLine(l) && '\r' !in l
    requires forall k <- vars :: Plain(k)
    ensures UpdatedWith(vars, lines).Some? ==> forall k <- UpdatedWith(vars, lines).value :: Plain(k)
    decreases |lines|
  {
    if lines != [] && ParseVarLine(lines[0]).Some? {
      var (k, v) := ParseVarLine(lines[0]).value;
      KeyIsPlain(lines[0]);
      hide ParseVarLine, Plain;
      KeysArePlain(vars[k := v], lines[1..]);
    }
  }

  lemma FileKeysArePlain(file: Option<string>)
    requires VarsIn(file).Some?
    ensures forall k <- VarsIn(file).value :: Plain(k)
  {
    if file.Some? {
      LinesAreLines(file.value);
      KeysArePlain(map[], IterLines(file.value));
    }
  }

  /** Writing and loading reproduces a dictionary exactly when all its keys are plain. */
  lemma SecretsRoundTrip(es: seq<Entry>, decrypt: string -> Option<string>)
    requires Encrypted(es, decrypt)
    ensures (forall e <- es :: Plain(e.key)) <==>
            match Load(decrypt, Some(Encoded(es)))
            case Loaded(vars) => IsDictOf(vars, es)
            case _ => false
  {
    hide Encoded, UrlSafe, Plain;
    if forall e <- es :: Plain(e.key) {
      PlainKeysLoad(es, decrypt);
    }
    if Load(decrypt, Some(Encoded(es))).Loaded? {
      FileKeysArePlain(Some(Encoded(es)));
    }
  }

  lemma PlainKeysLoad(es: seq<Entry>, decrypt: string -> Option<string>)
    requires Encrypted(es, decrypt)
    requires forall e <- es :: Plain(e.key)
    ensures var r := Load(decrypt, Some(Encoded(es))); r.Loaded? && IsDictOf(r.vars, es)
  {
    SafeTokens(es);
    hide Encoded, UrlSafe, OneLine, Plain, IterLines, UpdatedWith, WithTokens;
    LinesReadBack(map[], es);
    TokensByKey(es);
    Decrypted(Encoded(es), WithTokens(map[], es), es, decrypt);
  }

  lemma SafeTokens(es: seq<Entry>)
    requires forall e <- es :: UrlSafe(e.token)
    ensures forall e <- es :: OneLine(e.token) && '"' !in e.token
  {
  }

  lemma Decrypted(text: string, vars: Vars, es: seq<Entry>, decrypt: string -> Option<string>)
    requires VarsIn(Some(text)) == Some(vars)
    requires forall e <- es :: e.key in vars && vars[e.key] == e.token && decrypt(e.token) == Some(e.plain)
    requires forall k <- vars :: exists e <- es :: e.key == k
    ensures var r := Load(decrypt, Some(text)); r.Loaded? && IsDictOf(r.vars, es)
  {
    hide VarsIn;
    assert forall k <- vars :: decrypt(vars[k]).Some?;
  }

  /** A line written by hand: the value as it is or between quotes. */
  predicate WrittenPlain(e: Entry) {
    Plain(e.key) && OneLine(e.plain) && '"' !in e.plain && (e.token == e.plain || e.token == "\"" + e.plain + "\"")
  }

  /** A file of plain or quoted values holds the last value of each of its keys, and no other key. */
  lemma PlainFileReads(es: seq<Entry>, i: nat, k: string)
    requires forall e <- es :: WrittenPlain(e)
    requires i < |es| && forall j | i < j < |es| :: es[j].key != es[i].key
    ensures VarsIn(Some(Encoded(es))).Some?
    ensures var vars := VarsIn(Some(Encoded(es))).value;
            && es[i].key in vars && vars[es[i].key] == es[i].plain
            && (k in vars <==> exists j | 0 <= j < |es| :: es[j].key == k)
  {
    forall e <- es ensures Plain(e.key) && OneLine(e.token) && Without(e.token, '"') == e.plain {
      assert WrittenPlain(e);
      Unquoted(e.plain);
    }
    hide Encoded, OneLine, Plain, IterLines, UpdatedWith, WithTokens, WrittenPlain;
    LinesReadBack(map[], es);
    LastWins(map[], es, i);
    KeysOfLines(map[], es, k);
    assert es[i] in es;
  }

  /** Some line has no "=". */
  predicate HasBadLine(lines: seq<string>) {
    exists i | 0 <= i < |lines| :: '=' !in lines[i]
  }

  lemma BadLineStep(lines: seq<string>)
    requires lines != []
    ensures HasBadLine(lines) <==> '=' !in lines[0] || HasBadLine(lines[1..])
  {
    if i :| 0 < i < |lines| && '=' !in lines[i] {
      assert lines[1..][i - 1] == lines[i];
    }
  }

  /** Reading fails exactly on a line without "=". */
  lemma {:induction false} FailsExactly(vars: Vars, lines: seq<string>)
    ensures UpdatedWith(vars, lines).None? <==> HasBadLine(lines)
    decreases |lines|
  {
    hide ParseVarLine;
    if lines == [] {
      assert !HasBadLine(lines);
    } else {
      BadLineStep(lines);
      hide HasBadLine;
      ParsesExactly(lines[0]);
      if ParseVarLine(lines[0]).Some? {
        FailsExactly(vars[ParseVarLine(lines[0]).value.0 := ParseVarLine(lines[0]).value.1], lines[1..]);
      }
    }
  }

  lemma ParsesExactly(line: string)
    ensures ParseVarLine(line).None? <==> '=' !in line
  {
    hide Strip, Without;
    var i := Find(line, '=');
    assert i == |line| ==> line[..i] == line;
  }

  /**
    Loading raises an index error exactly on a line without "=", and else rejects exactly when
    some key's value does not decrypt. A missing file is an empty one.
   */
  lemma LoadFailsExactly(decrypt: string -> Option<string>, text: string)
    ensures Load(decrypt, None) == Loaded(map[])
    ensures Load(decrypt, Some(text)) == IndexError <==> HasBadLine(IterLines(text))
    ensures Load(decrypt, Some(text)) == InvalidToken <==>
              && VarsIn(Some(text)).Some?
              && exists k <- VarsIn(Some(text)).value :: decrypt(VarsIn(Some(text)).value[k]) == None
    ensures Load(decrypt, Some(text)).Loaded? ==>
              && Load(decrypt, Some(text)).vars.Keys == VarsIn(Some(text)).value.Keys
              && forall k <- VarsIn(Some(text)).value ::
                   Some(Load(decrypt, Some(text)).vars[k]) == decrypt(VarsIn(Some(text)).value[k])
  {
    var lines := IterLines(text);
    FailsExactly(map[], lines);
    hide IterLines, UpdatedWith, HasBadLine;
    assert VarsIn(Some(text)) == UpdatedWith(map[], lines);
  }

  /** Bundling: the variables of any readable plain file come back from the secrets file written for them. */
  lemma BundledVarsSurvive(file: Option<string>, es: seq<Entry>, decrypt: string -> Option<string>)
    requires VarsIn(file).Some? && IsDictOf(VarsIn(file).value, es)
    requires Encrypted(es, decrypt)
    ensures Load(decrypt, Some(Encoded(es))) == Loaded(VarsIn(file).value)
  {
    FileKeysArePlain(file);
    SecretsRoundTrip(es, decrypt);
    SameDict(Load(decrypt, Some(Encoded(es))).vars, VarsIn(file).value, es);
  }

  lemma SameDict(a: Vars, b: Vars, es: seq<Entry>)
    requires IsDictOf(a, es) && IsDictOf(b, es)
    ensures a == b
  {
  }
}
