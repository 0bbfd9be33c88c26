/** parse_args of cli.c: a command line is split into words inside a copy of the line, with
    quotes, escapes and a limited number of argument slots. */
module Cli {

  import opened Strings

  // ---------- the splitter on values ----------

  /** The words so far, the last one still open unless in whitespace, and the three flags. */
  datatype Lex = Lex(words: seq<string>, quoted: bool, escaped: bool, whitespace: bool)

  const START := Lex([], false, false, true)

  predicate Ok(l: Lex) {
    !l.whitespace ==> l.words != []
  }

  function Extend(words: seq<string>, t: string): (r: seq<string>)
    requires words != []
    ensures |r| == |words|
  {
    words[|words| - 1 := words[|words| - 1] + t]
  }

  /** One character of the line. */
  function Feed(l: Lex, c: char): (r: Lex)
    requires Ok(l)
    ensures Ok(r)
  {
    if c == '"' && !l.escaped then
      if !l.quoted && l.whitespace then Lex(l.words + [""], true, false, false) else l.(quoted := !l.quoted)
    else if (c == ' ' || c == '\t') && !(l.quoted || l.escaped) then l.(whitespace := true)
    else if c == '\\' && !l.escaped then l.(escaped := true)
    else l.(words := if l.whitespace then l.words + [[c]] else Extend(l.words, [c]), escaped := false,
      whitespace := false)
  }

  /** The scan stops as soon as only the slot for the final NULL is left. */
  function Run(l: Lex, s: string, max: nat): (r: Lex)
    requires Ok(l)
    ensures Ok(r)
    decreases |s|
  {
    if s == "" || |l.words| >= max - 1 then l else Run(Feed(l, s[0]), s[1..], max)
  }

  function Parse(s: string, max: nat): seq<string> {
    Run(START, s, max).words
  }

  /** The number of arguments always leaves room for the NULL. */
  lemma {:induction false} ArgcBelowMax(l: Lex, s: string, max: nat)
    requires Ok(l) && max >= 1 && |l.words| <= max - 1
    ensures |Run(l, s, max).words| <= max - 1
    decreases |s|
  {
    if s != "" && |l.words| < max - 1 {
      ArgcBelowMax(Feed(l, s[0]), s[1..], max);
    }
  }

  lemma {:induction false} RunAppend(l: Lex, a: string, b: string, max: nat)
    requires Ok(l)
    ensures Run(l, a + b, max) == Run(Run(l, a, max), b, max)
    decreases |a|
  {
    if a == "" {
      assert a + b == b;
    } else if |l.words| < max - 1 {
      assert (a + b)[0] == a[0] && (a + b)[1..] == a[1..] + b;
      RunAppend(Feed(l, a[0]), a[1..], b, max);
    }
  }

  // ---------- splitting what was joined ----------

  /** A word that reads the same without quoting. */
  predicate Plain(w: string) {
    w != "" && forall i :: 0 <= i < |w| ==> w[i] != ' ' && w[i] != '\t' && w[i] != '"' && w[i] != '\\'
  }

  ghost predicate AllPlain(words: seq<string>) {
    forall i :: 0 <= i < |words| ==> Plain(words[i])
  }

  lemma {:induction false} RunTail(l: Lex, t: string, max: nat)
    requires Ok(l) && !l.whitespace && !l.quoted && !l.escaped && |l.words| < max - 1
    requires t == "" || Plain(t)
    ensures Run(l, t, max) == l.(words := Extend(l.words, t))
    decreases |t|
  {
    var n := |l.words| - 1;
    if t == "" {
      assert l.words[n] + "" == l.words[n];
      assert Extend(l.words, "") == l.words;
    } else {
      var l1 := Feed(l, t[0]);
      RunTail(l1, t[1..], max);
      assert l.words[n] + [t[0]] + t[1..] == l.words[n] + t;
    }
  }

  /** A plain word read in whitespace; only its first character fits in the last slot. */
  lemma RunWord(l: Lex, w: string, max: nat)
    requires l.whitespace && !l.quoted && !l.escaped && Plain(w) && |l.words| < max - 1
    ensures Run(l, w, max) ==
      l.(words := l.words + [if |l.words| + 1 < max - 1 then w else w[..1]], whitespace := false)
  {
    var l1 := Feed(l, w[0]);
    assert [w[0]] == w[..1];
    if |l1.words| < max - 1 {
      RunTail(l1, w[1..], max);
      assert w[..1] + w[1..] == w;
      assert Extend(l1.words, w[1..]) == l.words + [w];
    }
  }

  /** What the arguments come out as: the word in the last usable slot keeps one character. */
  function Fitted(words: seq<string>, max: nat): seq<string>
    requires forall i :: 0 <= i < |words| ==> words[i] != ""
  {
    if |words| <= max - 2 then words
    else if max <= 1 then []
    else words[..max - 2] + [words[max - 2][..1]]
  }

  lemma {:induction false} RunJoined(words: seq<string>, max: nat)
    requires AllPlain(words)
    ensures Run(START, Join(words), max) == Lex(Fitted(words, max), false, false, words == [] || max <= 1)
    decreases |words|
  {
    var n := |words| - 1;
    if words != [] {
      var init, w := words[..n], words[n];
      RunJoined(init, max);
      if n == 0 {
        if max > 1 {
          RunWord(START, w, max);
        }
      } else {
        var l := Run(START, Join(init), max);
        RunAppend(START, Join(init) + " ", w, max);
        RunAppend(START, Join(init), " ", max);
        if |l.words| < max - 1 {
          assert Run(l, " ", max) == l.(whitespace := true);
          RunWord(l.(whitespace := true), w, max);
          assert init + [w] == words;
        }
      }
    }
  }

  /** Splitting a join gives the words back exactly when a slot is to spare or the word in the
      last usable slot has one character. */
  lemma ParseJoin(words: seq<string>, max: nat)
    requires AllPlain(words) && max >= 1
    ensures Parse(Join(words), max) == words <==>
      words == [] || |words| <= max - 2 || (|words| == max - 1 && |words[max - 2]| == 1)
  {
    RunJoined(words, max);
    if |words| >= max - 1 && max > 1 {
      var w := words[max - 2];
      assert |words| == max - 1 ==> words == words[..max - 2] + [w];
      assert w[..1] == w <==> |w| == 1;
      var f := Fitted(words, max);
      assert f[max - 2] == w[..1];
    }
  }

  /** Through the buffer that spd_str_join fills: if the joined words fit, the arguments are
      the words, for up to max - 2 of them. */
  lemma ParseJoinBuffer(words: seq<string>, len: nat, max: nat)
    requires AllPlain(words) && |words| <= max - 2 && 1 <= len && |Join(words)| <= len - 1
    ensures Parse(Take(Join(words), len - 1), max) == words
  {
    ParseJoin(words, max);
  }

  /** Three words for three argument slots and the NULL: the last one is cut to a character. */
  lemma LastSlotTruncates()
    ensures Parse(Join(["show", "all", "tasks"]), 4) == ["show", "all", "t"]
  {
    var words := ["show", "all", "tasks"];
    assert AllPlain(words) by {
      assert Plain("show") && Plain("all") && Plain("tasks");
    }
    RunJoined(words, 4);
    assert words[..2] == ["show", "all"] && "tasks"[..1] == "t";
  }

  // ---------- quotes and escapes ----------

  /** The ways to write a word: as it is; in double quotes, with a backslash before quotes and
      backslashes; or with a backslash before blanks too. */
  datatype Style = Bare | InQuotes | Slashed

  function Piece(c: char, blanks: bool): string {
    if c == '"' || c == '\\' || (blanks && (c == ' ' || c == '\t')) then ['\\', c] else [c]
  }

  function Escapes(w: string, blanks: bool): string {
    if w == "" then "" else Piece(w[0], blanks) + Escapes(w[1..], blanks)
  }

  function Spell(w: string, style: Style): string {
    match style
    case Bare => w
    case InQuotes => "\"" + Escapes(w, false) + "\""
    case Slashed => Escapes(w, true)
  }

  /** Every word can be written in quotes; the other ways need one that is not empty. */
  predicate Spellable(w: string, style: Style) {
    match style
    case Bare => Plain(w)
    case InQuotes => true
    case Slashed => w != ""
  }

  lemma RunCons(l: Lex, c: char, s: string, max: nat)
    requires Ok(l) && |l.words| < max - 1
    ensures Run(l, [c] + s, max) == Run(Feed(l, c), s, max)
  {
    assert ([c] + s)[1..] == s;
  }

  /** A character with a backslash in front of it, or one that needs none. */
  lemma RunPiece(l: Lex, c: char, blanks: bool, s: string, max: nat)
    requires Ok(l) && !l.escaped && (l.quoted || blanks) && |l.words| < max - 1
    requires l.quoted ==> !l.whitespace
    ensures var l1 := l.(words := if l.whitespace then l.words + [[c]] else Extend(l.words, [c]), whitespace := false);
      Ok(l1) && Run(l, Piece(c, blanks) + s, max) == Run(l1, s, max)
  {
    hide Run;
    if Piece(c, blanks) != [c] {
      assert ['\\', c] + s == ['\\'] + ([c] + s);
      RunCons(l, '\\', [c] + s, max);
      RunCons(l.(escaped := true), c, s, max);
    } else {
      RunCons(l, c, s, max);
    }
  }

  lemma Regroup(a: string, b: string, c: string)
    ensures a + b + c == a + (b + c)
  {
  }

  lemma ExtendTwice(words: seq<string>, a: string, b: string)
    requires words != []
    ensures Extend(Extend(words, a), b) == Extend(words, a + b) && Extend(words, "") == words
  {
    var w := words[|words| - 1];
    assert w + a + b == w + (a + b) && w + "" == w;
  }

  lemma {:induction false} RunEscapes(l: Lex, w: string, blanks: bool, rest: string, max: nat)
    requires Ok(l) && !l.whitespace && !l.escaped && (l.quoted || blanks) && |l.words| < max - 1
    ensures Run(l, Escapes(w, blanks) + rest, max) == Run(l.(words := Extend(l.words, w)), rest, max)
    decreases |w|
  {
    hide Run, Piece, Extend;
    if w == "" {
      ExtendTwice(l.words, "", "");
      assert "" + rest == rest;
    } else {
      var tail := Escapes(w[1..], blanks);
      Regroup(Piece(w[0], blanks), tail, rest);
      RunPiece(l, w[0], blanks, tail + rest, max);
      RunEscapes(l.(words := Extend(l.words, [w[0]])), w[1..], blanks, rest, max);
      ExtendTwice(l.words, [w[0]], w[1..]);
      assert [w[0]] + w[1..] == w;
    }
  }

  /** A word read in whitespace, however it is written. */
  lemma RunSpelled(l: Lex, w: string, style: Style, rest: string, max: nat)
    requires l.whitespace && !l.quoted && !l.escaped && Spellable(w, style) && |l.words| < max - 2
    ensures Run(l, Spell(w, style) + rest, max) == Run(l.(words := l.words + [w], whitespace := false), rest, max)
  {
    match style {
      case Bare =>
        RunWord(l, w, max);
        RunAppend(l, w, rest, max);
      case InQuotes =>
        var body, l1 := Escapes(w, false), Lex(l.words + [""], true, false, false);
        assert "\"" + body + "\"" + rest == ['"'] + (body + (['"'] + rest));
        RunCons(l, '"', body + (['"'] + rest), max);
        RunEscapes(l1, w, false, ['"'] + rest, max);
        assert "" + w == w && Extend(l1.words, w) == l.words + [w];
        RunCons(l1.(words := l.words + [w]), '"', rest, max);
      case Slashed =>
        var tail := Escapes(w[1..], true);
        Regroup(Piece(w[0], true), tail, rest);
        RunPiece(l, w[0], true, tail + rest, max);
        var l1 := l.(words := l.words + [[w[0]]], whitespace := false);
        RunEscapes(l1, w[1..], true, rest, max);
        assert [w[0]] + w[1..] == w && Extend(l1.words, w[1..]) == l.words + [w];
    }
  }

  predicate Gap(g: string) {
    forall i :: 0 <= i < |g| ==> g[i] == ' ' || g[i] == '\t'
  }

  lemma {:induction false} RunGap(l: Lex, g: string, rest: string, max: nat)
    requires Ok(l) && !l.quoted && !l.escaped && Gap(g) && |l.words| < max - 1
    ensures Run(l, g + rest, max) == Run(l.(whitespace := l.whitespace || g != ""), rest, max)
    decreases |g|
  {
    if g == "" {
      assert "" + rest == rest;
    } else {
      assert g + rest == [g[0]] + (g[1..] + rest);
      RunCons(l, g[0], g[1..] + rest, max);
      RunGap(l.(whitespace := true), g[1..], rest, max);
    }
  }

  /** A word as it is written in a line: what stands before it, and how it is spelled. */
  datatype Written = Written(gap: string, word: string, style: Style)

  function Line(ws: seq<Written>): string {
    if ws == [] then "" else ws[0].gap + Spell(ws[0].word, ws[0].style) + Line(ws[1..])
  }

  function Words(ws: seq<Written>): seq<string> {
    seq(|ws|, i requires 0 <= i < |ws| => ws[i].word)
  }

  lemma WordsCons(ws: seq<Written>, before: seq<string>)
    requires ws != []
    ensures before + [ws[0].word] + Words(ws[1..]) == before + Words(ws)
  {
    assert Words(ws) == [ws[0].word] + Words(ws[1..]);
  }

  /** Blanks and tabs between the words, and perhaps in front of the first. */
  ghost predicate Readable(ws: seq<Written>, first: bool) {
    && (forall i :: 0 <= i < |ws| ==> Gap(ws[i].gap) && Spellable(ws[i].word, ws[i].style))
    && (forall i :: 0 <= i < |ws| ==> (i == 0 && first) || ws[i].gap != "")
  }

  lemma {:induction false} RunLine(l: Lex, ws: seq<Written>, rest: string, max: nat)
    requires Ok(l) && !l.quoted && !l.escaped && |l.words| + |ws| <= max - 2 && Readable(ws, l.whitespace)
    ensures Run(l, Line(ws) + rest, max)
         == Run(l.(words := l.words + Words(ws), whitespace := l.whitespace && ws == []), rest, max)
    decreases |ws|
  {
    if ws == [] {
      assert "" + rest == rest && l.words + Words(ws) == l.words;
    } else {
      hide Run, Spell, Spellable, Gap;
      var w, more := ws[0], Line(ws[1..]) + rest;
      var l1 := l.(whitespace := true);
      Regroup(w.gap, Spell(w.word, w.style), Line(ws[1..]));
      Regroup(w.gap, Spell(w.word, w.style) + Line(ws[1..]), rest);
      Regroup(Spell(w.word, w.style), Line(ws[1..]), rest);
      RunGap(l, w.gap, Spell(w.word, w.style) + more, max);
      RunSpelled(l1, w.word, w.style, more, max);
      RunLine(l1.(words := l.words + [w.word], whitespace := false), ws[1..], rest, max);
      WordsCons(ws, l.words);
    }
  }

  /** Words of any characters, each written bare, in quotes or with backslashes, with blanks or
      tabs between them and at the ends, are read back as they are, up to max - 2 of them; the
      flag for whitespace at the end is up exactly if there is some, or no word at all. */
  lemma ParseLine(ws: seq<Written>, tail: string, max: nat)
    requires |ws| <= max - 2 && Readable(ws, true) && Gap(tail)
    ensures Run(START, Line(ws) + tail, max) == Lex(Words(ws), false, false, ws == [] || tail != "")
  {
    var l := Lex(Words(ws), false, false, ws == []);
    RunLine(START, ws, tail, max);
    assert [] + Words(ws) == Words(ws) && tail + "" == tail;
    RunGap(l, tail, "", max);
  }

  function AllQuoted(words: seq<string>): seq<string> {
    seq(|words|, i requires 0 <= i < |words| => Spell(words[i], InQuotes))
  }

  /** In quotes every word comes back, blanks, quotes, backslashes and the empty one included. */
  lemma {:induction false} ParseQuoted(words: seq<string>, max: nat)
    requires |words| <= max - 2
    ensures Run(START, Join(AllQuoted(words)), max) == Lex(words, false, false, words == [])
    decreases |words|
  {
    var n := |words| - 1;
    if words != [] {
      hide Run, Spell;
      var init, w := words[..n], words[n];
      var q, line := AllQuoted(words), Join(AllQuoted(init));
      ParseQuoted(init, max);
      assert q[..n] == AllQuoted(init) && init + [w] == words;
      var l := Lex(init, false, false, true);
      RunSpelled(l, w, InQuotes, "", max);
      RunStops(Lex(words, false, false, false), "", max);
      assert q[n] + "" == q[n];
      if n > 0 {
        Regroup(line, " ", q[n]);
        RunAppend(START, line, " " + q[n], max);
        RunGap(l.(whitespace := false), " ", q[n], max);
      }
    }
  }

  // ---------- the splitter on the buffers ----------

  /** How the copy of the line and the argument slots hold the words: cur is where the next
      character goes. */
  ghost predicate Stored(b: seq<char>, argv: seq<int>, cur: int, words: seq<string>, open: bool) {
    && 0 <= cur <= |b| && |words| <= |argv| && (open ==> words != [])
    && (forall i :: 0 <= i < |words| ==> 0 <= argv[i] && argv[i] + |words[i]| <= cur && NUL !in words[i])
    && (forall i :: 0 <= i < |words| ==> b[argv[i]..argv[i] + |words[i]|] == words[i])
    && (forall i :: 0 <= i < (if open then |words| - 1 else |words|) ==>
          argv[i] + |words[i]| < cur && b[argv[i] + |words[i]|] == NUL)
    && (open ==> argv[|words| - 1] + |words[|words| - 1]| == cur)
  }

  lemma StoredNew(b: seq<char>, argv: seq<int>, cur: int, words: seq<string>, argv': seq<int>)
    requires Stored(b, argv, cur, words, false) && |words| < |argv| && argv' == argv[|words| := cur]
    ensures Stored(b, argv', cur, words + [""], true)
  {
  }

  lemma StoredChar(b: seq<char>, argv: seq<int>, cur: int, words: seq<string>, c: char, b': seq<char>)
    requires Stored(b, argv, cur, words, true) && cur < |b| && b' == b[cur := c] && c != NUL
    ensures Stored(b', argv, cur + 1, Extend(words, [c]), true)
  {
    var n := |words| - 1;
    var more := Extend(words, [c]);
    assert b'[argv[n]..cur + 1] == b[argv[n]..cur] + [c];
    forall i | 0 <= i < n
      ensures b'[argv[i]..argv[i] + |more[i]|] == more[i]
    {
      assert b'[argv[i]..argv[i] + |words[i]|] == b[argv[i]..argv[i] + |words[i]|];
    }
  }

  lemma StoredEnd(b: seq<char>, argv: seq<int>, cur: int, words: seq<string>, open: bool, b': seq<char>)
    requires Stored(b, argv, cur, words, open) && cur < |b| && b' == b[cur := NUL]
    ensures Stored(b', argv, cur + 1, words, false)
  {
    forall i | 0 <= i < |words|
      ensures b'[argv[i]..argv[i] + |words[i]|] == words[i]
    {
      assert b'[argv[i]..argv[i] + |words[i]|] == b[argv[i]..argv[i] + |words[i]|];
    }
  }

  lemma StoredStrings(b: seq<char>, argv: seq<int>, cur: int, words: seq<string>)
    requires Stored(b, argv, cur, words, false)
    ensures |words| <= |argv| && forall i :: 0 <= i < |words| ==> IsString(b, argv[i], words[i])
  {
  }

  lemma StoredNothing(b: seq<char>, argv: seq<int>)
    ensures Stored(b, argv, 0, [], false)
  {
  }

  lemma RunStops(l: Lex, s: string, max: nat)
    requires Ok(l) && (s == "" || |l.words| >= max - 1)
    ensures Run(l, s, max) == l
  {
  }

  lemma RunStep(l: Lex, s: string, k: nat, max: nat)
    requires Ok(l) && k < |s| && |l.words| < max - 1
    ensures Run(l, s[k..], max) == Run(Feed(l, s[k]), s[k + 1..], max)
  {
    assert s[k..][0] == s[k] && s[k..][1..] == s[k + 1..];
  }

  /** The next argument slot is set to the place where its characters will go. */
  method NewWord(argv: array<int>, x: nat, cur: nat, ghost b: seq<char>, ghost words: seq<string>)
    requires x == |words| < argv.Length && Stored(b, argv[..], cur, words, false)
    modifies argv
    ensures Stored(b, argv[..], cur, words + [""], true)
  {
    ghost var a := argv[..];
    argv[x] := cur;
    StoredNew(b, a, cur, words, argv[..]);
  }

  method PutChar(buf: array<char>, cur: nat, c: char, ghost argv: seq<int>, ghost words: seq<string>)
    requires cur < buf.Length && c != NUL && Stored(buf[..], argv, cur, words, true)
    modifies buf
    ensures words != [] && Stored(buf[..], argv, cur + 1, Extend(words, [c]), true)
  {
    ghost var b := buf[..];
    buf[cur] := c;
    StoredChar(b, argv, cur, words, c, buf[..]);
  }

  method EndWord(buf: array<char>, cur: nat, ghost argv: seq<int>, ghost words: seq<string>, ghost open: bool)
    requires cur < buf.Length && Stored(buf[..], argv, cur, words, open)
    modifies buf
    ensures Stored(buf[..], argv, cur + 1, words, false)
  {
    ghost var b := buf[..];
    buf[cur] := NUL;
    StoredEnd(b, argv, cur, words, open, buf[..]);
  }

  lemma FeedPlain(l: Lex, c: char)
    requires Ok(l)
    ensures l.whitespace ==> Extend(l.words + [""], [c]) == l.words + [[c]]
  {
    if l.whitespace {
      assert "" + [c] == [c];
    }
  }

  /** One turn of the scan: the character c moves the flags, the slots and the copy. */
  method Accept(buf: array<char>, argv: array<int>, c: char, x: nat, cur: nat, quoted: bool, escaped: bool,
                whitespace: bool, ghost words: seq<string>)
    returns (x': nat, cur': nat, quoted': bool, escaped': bool, whitespace': bool)
    requires Ok(Lex(words, quoted, escaped, whitespace)) && c != NUL
    requires x == |words| < argv.Length && cur < buf.Length && Stored(buf[..], argv[..], cur, words, !whitespace)
    modifies buf, argv
    ensures cur' <= cur + 1
    ensures var l := Feed(Lex(words, quoted, escaped, whitespace), c);
      && l == Lex(l.words, quoted', escaped', whitespace') && x' == |l.words|
      && Stored(buf[..], argv[..], cur', l.words, !whitespace')
  {
    hide Stored, Extend;
    x', cur', quoted', escaped', whitespace' := x, cur, quoted, escaped, whitespace;
    FeedPlain(Lex(words, quoted, escaped, whitespace), c);
    if c == '"' && !escaped {
      quoted' := !quoted;
      if quoted' && whitespace {
        NewWord(argv, x, cur, buf[..], words);
        x', whitespace' := x + 1, false;
      }
    } else if (c == ' ' || c == '\t') && !(quoted || escaped) {
      if !whitespace {
        EndWord(buf, cur, argv[..], words, true);
        cur', whitespace' := cur + 1, true;
      }
    } else if c == '\\' && !escaped {
      escaped' := true;
    } else {
      ghost var open := words;
      if whitespace {
        NewWord(argv, x, cur, buf[..], words);
        open := words + [""];
        x', whitespace' := x + 1, false;
      }
      PutChar(buf, cur, c, argv[..], open);
      cur', escaped' := cur + 1, false;
    }
  }

  /** parse_args. `argv` holds indices into the copy, -1 for NULL; `trailing` tells whether the
      line ended outside a word. */
  method ParseArgs(s: string, argv: array<int>, max: nat)
    returns (duplicate: array<char>, argc: nat, trailing: bool)
    requires 1 <= max <= argv.Length && NUL !in s
    modifies argv
    ensures fresh(duplicate) && argc == |Parse(s, max)| < max
    ensures forall i :: 0 <= i < argc ==> IsString(duplicate[..], argv[i], Parse(s, max)[i])
    ensures argv[argc] == -1 && trailing == Run(START, s, max).whitespace
  {
    hide Stored, Run, Feed, IsString;
    duplicate := new char[|s| + 1](i requires 0 <= i <= |s| => if i < |s| then s[i] else NUL);
    ghost var l := START;
    ArgcBelowMax(START, s, max);
    var x, cur, k := 0, 0, 0;
    var quoted, escaped, whitespace := false, false, true;
    StoredNothing(duplicate[..], argv[..]);
    assert s[0..] == s;
    while k < |s| && x < max - 1
      invariant k <= |s| && 0 <= cur <= k
      invariant Ok(l) && l == Lex(l.words, quoted, escaped, whitespace) && x == |l.words| <= max - 1
      invariant Stored(duplicate[..], argv[..], cur, l.words, !whitespace)
      invariant Run(l, s[k..], max) == Run(START, s, max)
    {
      RunStep(l, s, k, max);
      x, cur, quoted, escaped, whitespace := Accept(duplicate, argv, s[k], x, cur, quoted, escaped, whitespace,
        l.words);
      FeedOne(l, s[k]);
      l := Feed(l, s[k]);
      k := k + 1;
    }
    EndWord(duplicate, cur, argv[..], l.words, !whitespace);
    RunStops(l, s[k..], max);
    StoredStrings(duplicate[..], argv[..], cur + 1, l.words);
    argv[x] := -1;
    argc, trailing := x, whitespace;
  }

  lemma FeedOne(l: Lex, c: char)
    requires Ok(l)
    ensures |l.words| <= |Feed(l, c).words| <= |l.words| + 1
  {
  }
}
