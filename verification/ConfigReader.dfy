/** The reader of config.c at work on its line buffer: lines are cut up in place with NULs, and
    the configuration grows section by section. Each method is proved against ConfigText. */
module ConfigReader {

  import opened Common
  import opened Strings
  import CommentStrip
  import opened Sections
  import opened ConfigText

  // ---------- strings in the line buffer ----------

  lemma TailString(b: seq<char>, i: int, s: string, n: nat)
    requires IsString(b, i, s) && n <= |s|
    ensures IsString(b, i + n, s[n..])
  {
    assert b[i + n..i + |s|] == s[n..];
  }

  /** A NUL in the middle makes two strings of one. */
  lemma CutString(b: seq<char>, i: int, s: string, k: nat, b': seq<char>)
    requires IsString(b, i, s) && k < |s| && b' == b[i + k := NUL]
    ensures IsString(b', i, s[..k]) && IsString(b', i + k + 1, s[k + 1..])
  {
    assert b'[i..i + k] == s[..k];
    assert b'[i + k + 1..i + |s|] == s[k + 1..];
  }

  lemma CharAt(b: seq<char>, i: int, s: string, k: nat)
    requires IsString(b, i, s) && k <= |s|
    ensures i + k < |b| && b[i + k] == (if k < |s| then s[k] else NUL)
    ensures k < |s| ==> b[i + k] != NUL
  {
    if k < |s| {
      assert s[k] in s;
      assert b[i..i + |s|][k] == s[k];
    }
  }

  /** A string that lies outside the changed part of the buffer. */
  lemma StringStays(b: seq<char>, b': seq<char>, i: int, s: string)
    requires IsString(b, i, s) && |b| == |b'| && forall j :: i <= j <= i + |s| ==> b'[j] == b[j]
    ensures IsString(b', i, s)
  {
    assert b'[i..i + |s|] == b[i..i + |s|];
  }

  method StrChr(buf: array<char>, from: nat, c: char, ghost s: string) returns (p: int)
    requires IsString(buf[..], from, s) && c != NUL
    ensures p == if Index(s, c) == |s| then -1 else from + Index(s, c)
  {
    hide IsString;
    var i := from;
    CharAt(buf[..], from, s, 0);
    while buf[i] != NUL && buf[i] != c
      invariant from <= i <= from + |s| && i < buf.Length
      invariant buf[i] == (if i - from < |s| then s[i - from] else NUL) && (i - from < |s| ==> buf[i] != NUL)
      invariant forall k :: 0 <= k < i - from ==> s[k] != c
      decreases from + |s| - i
    {
      i := i + 1;
      CharAt(buf[..], from, s, i - from);
    }
    IndexIs(s, c, i - from);
    p := if buf[i] == NUL then -1 else i;
  }

  /** strcpy out of the buffer. */
  method ReadString(buf: array<char>, from: nat, ghost s: string) returns (t: string)
    requires IsString(buf[..], from, s)
    ensures t == s
  {
    hide IsString;
    t := "";
    var i := from;
    CharAt(buf[..], from, s, 0);
    while buf[i] != NUL
      invariant from <= i <= from + |s| && i < buf.Length && t == s[..i - from]
      invariant buf[i] == (if i - from < |s| then s[i - from] else NUL) && (i - from < |s| ==> buf[i] != NUL)
      decreases from + |s| - i
    {
      t, i := t + [buf[i]], i + 1;
      CharAt(buf[..], from, s, i - from);
    }
  }

  method StripAndRead(buf: array<char>, from: nat, ghost s: string) returns (t: string)
    requires IsString(buf[..], from, s)
    modifies buf
    ensures t == Strip(s)
    ensures forall i :: 0 <= i < buf.Length && (i < from || i > from + |s|) ==> buf[i] == old(buf[i])
  {
    var start := StripInPlace(buf, from, s);
    t := ReadString(buf, start, Strip(s));
  }

  // ---------- one line ----------

  /** The variable on a line, if there is an equal sign. */
  method ParseVariable(buf: array<char>, cur: nat, ghost line: string) returns (found: bool, v: Var)
    requires IsString(buf[..], cur, line)
    modifies buf
    ensures found <==> Index(line, '=') < |line|
    ensures found ==> v == VarOf(line, Index(line, '='))
  {
    hide IsString, Strip, Index;
    v := Var("", "", false);
    ghost var b := buf[..];
    var p := StrChr(buf, cur, '=', line);
    found := p != -1;
    if found {
      ghost var k := p - cur;
      CharAt(b, cur, line, k);
      buf[p] := NUL;
      CutString(b, cur, line, k, buf[..]);
      ghost var right := line[k + 1..];
      var c := p + 1;
      CharAt(buf[..], c, right, 0);
      var arrow := buf[c] == '>';
      if arrow {
        c := c + 1;
        TailString(buf[..], p + 1, right, 1);
        right := right[1..];
      }
      ghost var b1 := buf[..];
      StringBounds(b1, c, right);
      StringBounds(b1, cur, line[..k]);
      var name := StripAndRead(buf, cur, line[..k]);
      StringStays(b1, buf[..], c, right);
      var value := StripAndRead(buf, c, right);
      v := Var(name, value, arrow);
    }
  }

  lemma StringBounds(b: seq<char>, i: int, s: string)
    requires IsString(b, i, s)
    ensures 0 <= i && i + |s| < |b|
  {
  }

  /** What follows the bracket: the options, if a parenthesis stands right behind it. */
  method ParseOptions(buf: array<char>, from: nat, ghost name: string, ghost tail: string)
    returns (ok: bool, c: int, ghost opts: string)
    requires IsString(buf[..], from, tail)
    modifies buf
    ensures !ok ==> HeadingOf(name, tail) == Malformed
    ensures ok && c == -1 ==> HeadingOf(name, tail) == Plain(name)
    ensures ok && c != -1 ==> 0 <= c && IsString(buf[..], c, opts) && HeadingOf(name, tail) == WithOptions(name, opts)
  {
    hide IsString;
    ok, c, opts := false, -1, "";
    CharAt(buf[..], from, tail, 0);
    if buf[from] != '(' {
      ok := true;
      return;
    }
    TailString(buf[..], from, tail, 1);
    IndexOfTail(tail, ')');
    var e := StrChr(buf, from + 1, ')', tail[1..]);
    if e == -1 {
      return;
    }
    ghost var b, n := buf[..], Index(tail[1..], ')');
    CharAt(b, from + 1, tail[1..], n);
    buf[e] := NUL;
    CutString(b, from + 1, tail[1..], n, buf[..]);
    assert tail[1..][..n] == tail[1..n + 1];
    ok, c, opts := true, from + 1, tail[1..n + 1];
  }

  /** The name and the options of a header line; `rest` is what follows the bracket. */
  method ParseHeader(buf: array<char>, cur: nat, ghost rest: string)
    returns (ok: bool, name: string, c: int, ghost opts: string)
    requires IsString(buf[..], cur, rest)
    modifies buf
    ensures !ok ==> SplitHeader(rest) == Malformed
    ensures ok && c == -1 ==> SplitHeader(rest) == Plain(name)
    ensures ok && c != -1 ==> 0 <= c && IsString(buf[..], c, opts) && SplitHeader(rest) == WithOptions(name, opts)
  {
    hide IsString, HeadingOf;
    ok, name, c, opts := false, "", -1, "";
    ghost var b, k := buf[..], Index(rest, ']');
    var p := StrChr(buf, cur, ']', rest);
    if p != -1 {
      CharAt(b, cur, rest, k);
      buf[p] := NUL;
      CutString(b, cur, rest, k, buf[..]);
      name := ReadString(buf, cur, rest[..k]);
      ok, c, opts := ParseOptions(buf, p + 1, name, rest[k + 1..]);
    }
  }

  lemma IndexOfTail(s: string, c: char)
    requires s != "" && s[0] != c
    ensures Index(s, c) == Index(s[1..], c) + 1
  {
  }

  /** strsep: the option at c, and where the next one is. */
  method NextOption(buf: array<char>, c: nat, ghost s: string) returns (opt: string, next: int, ghost more: string)
    requires IsString(buf[..], c, s)
    modifies buf
    ensures next != -1 ==> 0 <= next && IsString(buf[..], next, more) && |more| < |s|
    ensures Options(s) == [opt] + (if next == -1 then [] else Options(more))
  {
    hide IsString;
    ghost var b, k := buf[..], Index(s, ',');
    var p := StrChr(buf, c, ',', s);
    if p == -1 {
      opt := ReadString(buf, c, s);
      next, more := -1, "";
    } else {
      CharAt(b, c, s, k);
      buf[p] := NUL;
      CutString(b, c, s, k, buf[..]);
      opt := ReadString(buf, c, s[..k]);
      next, more := p + 1, s[k + 1..];
    }
  }

  // ---------- the configuration ----------

  class Config {
    var secs: seq<Sec>
    /** The section that variables go to, -1 for NULL. */
    var cur: int

    ghost predicate Valid()
      reads this
    {
      -1 <= cur < |secs|
    }

    ghost function View(): State
      reads this
    {
      State(secs, cur)
    }

    constructor ()
      ensures Valid() && View() == State([], -1)
    {
      secs, cur := [], -1;
    }

    /** section_get with templates included. */
    method SectionGet(name: string) returns (k: nat)
      ensures k == Find(secs, name)
    {
      k := 0;
      while k < |secs| && !CaseEq(secs[k].name, name)
        invariant k <= |secs| && forall i :: 0 <= i < k ==> !CaseEq(secs[i].name, name)
      {
        k := k + 1;
      }
      FindIs(secs, name, k);
    }

    /** inherit_section for a section that is not the base itself. */
    method CloneAll(base: nat) returns (clones: seq<Var>)
      requires base < |secs|
      ensures clones == Cloned(secs[base].vars)
    {
      clones := [];
      var i := 0;
      while i < |secs[base].vars|
        invariant i <= |secs[base].vars| && |clones| == i
        invariant forall j :: 0 <= j < i ==> clones[j] == secs[base].vars[j].(arrow := false)
      {
        clones, i := clones + [secs[base].vars[i].(arrow := false)], i + 1;
      }
    }

    /** One option of a header line. */
    method ApplyOption(name: string, t: Target, opt: string) returns (ok: bool, t': Target)
      requires Fits(secs, t) && ApplyOne(secs, name, t, opt) != Endless
      modifies this`secs
      ensures ok ==> ApplyOne(old(secs), name, t, opt) == Applied(secs, t')
      ensures !ok ==> ApplyOne(old(secs), name, t, opt) == Missing
    {
      ok, t' := true, t;
      if CaseEq(opt, "!") {
        match t {
          case New(sec) => t' := New(sec.(ignored := true));
          case Old(i) => secs := secs[i := secs[i].(ignored := true)];
        }
      } else if CaseEq(opt, "+") {
        var k := SectionGet(name);
        ok := k < |secs|;
        if ok {
          if t.New? {
            secs := secs[k := secs[k].(vars := secs[k].vars + t.sec.vars)];
          }
          t' := Old(k);
        }
      } else {
        var k := SectionGet(opt);
        ok := k < |secs|;
        if ok {
          var clones := CloneAll(k);
          match t {
            case New(sec) => t' := New(sec.(vars := sec.vars + clones));
            case Old(i) => secs := secs[i := secs[i].(vars := secs[i].vars + clones)];
          }
        }
      }
    }

    /** The loop over the options. */
    method ApplyOptions(buf: array<char>, c: int, ghost opts: string, name: string, sec: Sec)
      returns (ok: bool, t: Target)
      requires c == -1 || (c >= 0 && IsString(buf[..], c, opts))
      requires Apply(secs, name, New(sec), if c == -1 then [] else Options(opts)) != Endless
      modifies this`secs, buf
      ensures ok ==> Apply(old(secs), name, New(sec), if c == -1 then [] else Options(opts)) == Applied(secs, t)
      ensures !ok ==> Apply(old(secs), name, New(sec), if c == -1 then [] else Options(opts)) == Missing
    {
      hide IsString, ApplyOne, Options;
      t := New(sec);
      var next := c;
      ghost var rest := opts;
      ghost var whole := Apply(secs, name, t, if c == -1 then [] else Options(opts));
      while next != -1
        invariant Fits(secs, t) && (next == -1 || (next >= 0 && IsString(buf[..], next, rest)))
        invariant whole == Apply(secs, name, t, if next == -1 then [] else Options(rest))
        decreases if next == -1 then 0 else |rest| + 1
      {
        ghost var left := Options(rest);
        var opt;
        opt, next, rest := NextOption(buf, next, rest);
        assert left[0] == opt && left[1..] == if next == -1 then [] else Options(rest);
        ok, t := ApplyOption(name, t, opt);
        if !ok {
          return;
        }
      }
      ok := true;
    }

    /** process_text_line on the stripped line at `from`; false stands for an error, after which
        the whole configuration is given up. */
    method ProcessTextLine(buf: array<char>, from: nat, ghost line: string) returns (ok: bool)
      requires Valid() && line != "" && IsString(buf[..], from, line) && Process(View(), line) != Hung
      modifies this, buf
      ensures ok ==> Valid() && Process(old(View()), line) == Ok(View())
      ensures !ok ==> Process(old(View()), line) == Failed
    {
      hide IsString, Header, VarOf;
      CharAt(buf[..], from, line, 0);
      if buf[from] == '[' {
        TailString(buf[..], from, line, 1);
        ok := ProcessHeader(buf, from + 1, line[1..]);
      } else if buf[from] == '#' {
        ok := true;
      } else if cur == -1 {
        ok := false;
      } else {
        ok := true;
        var found, v := ParseVariable(buf, from, line);
        if found {
          secs := secs[cur := secs[cur].(vars := secs[cur].vars + [v])];
        }
      }
    }

    /** What is left of a line after comment stripping: blanks go, and an empty rest is skipped. */
    method ReadLine(buf: array<char>, processBuf: int, ghost text: Option<string>) returns (ok: bool)
      requires Valid() && (processBuf == -1 <==> text.None?)
      requires text.Some? ==> IsString(buf[..], processBuf, text.value)
      requires ReadText(View(), text) != Hung
      modifies this, buf
      ensures ok ==> Valid() && ReadText(old(View()), text) == Ok(View())
      ensures !ok ==> ReadText(old(View()), text) == Failed
    {
      hide IsString, Process, Strip;
      ok := true;
      if processBuf != -1 {
        StringBounds(buf[..], processBuf, text.value);
        var start := StripInPlace(buf, processBuf, text.value);
        CharAt(buf[..], start, Strip(text.value), 0);
        if buf[start] != NUL {
          ok := ProcessTextLine(buf, start, Strip(text.value));
        }
      }
    }

    method ProcessHeader(buf: array<char>, from: nat, ghost rest: string) returns (ok: bool)
      requires Valid() && IsString(buf[..], from, rest) && Header(View(), rest) != Hung
      modifies this, buf
      ensures ok ==> Valid() && Header(old(View()), rest) == Ok(View())
      ensures !ok ==> Header(old(View()), rest) == Failed
    {
      hide IsString, Apply, Options;
      var name, c, t;
      ghost var opts;
      ok, name, c, opts := ParseHeader(buf, from, rest);
      if ok {
        ok, t := ApplyOptions(buf, c, opts, name, Sec(Truncated(name), false, []));
        if ok {
          match t {
            case New(sec) => secs, cur := secs + [sec], |secs|;
            case Old(k) => cur := k;
          }
        }
      }
    }
  }

  // ---------- the printer ----------

  lemma {:induction false} TextAppend(a: seq<string>, b: seq<string>)
    ensures Text(a + b) == Text(a) + Text(b)
  {
    if a == [] {
      assert a + b == b;
    } else {
      assert (a + b)[0] == a[0] && (a + b)[1..] == a[1..] + b;
      TextAppend(a[1..], b);
    }
  }

  lemma TextLine(line: string, more: seq<string>)
    ensures Text([line] + more) == line + "\n" + Text(more)
  {
    assert ([line] + more)[1..] == more;
  }

  lemma SectionText(cfg: seq<Sec>, i: nat)
    requires i < |cfg|
    ensures SectionLines(cfg[i..]) ==
      [""] + ([HeaderLine(cfg[i])] + (VarLines(cfg[i].vars) + SectionLines(cfg[i + 1..])))
  {
    assert cfg[i..][0] == cfg[i] && cfg[i..][1..] == cfg[i + 1..];
  }

  lemma VarText(vars: seq<Var>, j: nat, more: seq<string>)
    requires j < |vars|
    ensures VarLines(vars[j..]) + more == [VarLine(vars[j])] + (VarLines(vars[j + 1..]) + more)
  {
    assert vars[j..][0] == vars[j] && vars[j..][1..] == vars[j + 1..];
  }

  /** config_text_file_save: what it writes to the file. */
  method SaveText(cfg: seq<Sec>, file: string, generator: string, date: string) returns (f: string)
    ensures f == Save(cfg, file, generator, date)
  {
    hide HeaderLine, VarLine, Text, SectionLines, VarLines;
    ghost var whole := Save(cfg, file, generator, date);
    f := WritePreamble(file, generator, date);
    TextAppend(Preamble(file, generator, date), SectionLines(cfg));
    var i := 0;
    assert cfg[0..] == cfg;
    while i < |cfg|
      invariant i <= |cfg| && f + Text(SectionLines(cfg[i..])) == whole
    {
      SectionText(cfg, i);
      ghost var later := SectionLines(cfg[i + 1..]);
      ghost var vars := VarLines(cfg[i].vars) + later;
      TextLine("", [HeaderLine(cfg[i])] + vars);
      TextLine(HeaderLine(cfg[i]), vars);
      f := WriteHeader(f, cfg[i]);
      var j := 0;
      assert cfg[i].vars[0..] == cfg[i].vars;
      while j < |cfg[i].vars|
        invariant j <= |cfg[i].vars| && f + Text(VarLines(cfg[i].vars[j..]) + later) == whole
      {
        VarText(cfg[i].vars, j, later);
        TextLine(VarLine(cfg[i].vars[j]), VarLines(cfg[i].vars[j + 1..]) + later);
        f := WriteVar(f, cfg[i].vars[j]);
        j := j + 1;
      }
      assert cfg[i].vars[j..] == [];
      NoLines(later);
      i := i + 1;
    }
    assert cfg[i..] == [];
    NoLines([]);
  }

  lemma NoLines(more: seq<string>)
    ensures VarLines([]) + more == more && SectionLines([]) == [] && Text([]) == ""
  {
  }

  method WriteLine(f: string, line: string, ghost lines: seq<string>) returns (f': string)
    requires f == Text(lines)
    ensures f' == Text(lines + [line])
  {
    f' := f + line + "\n";
    TextAppend(lines, [line]);
    TextLine(line, []);
    assert [line] + [] == [line] && line + "\n" + "" == line + "\n";
  }

  method WritePreamble(file: string, generator: string, date: string) returns (f: string)
    ensures f == Text(Preamble(file, generator, date))
  {
    ghost var p := Preamble(file, generator, date);
    f := WriteLine("", ";!", []);
    f := WriteLine(f, ";! " + TITLE, p[..1]);
    assert p[..1] + [p[1]] == p[..2];
    f := WriteLine(f, ";! Filename: " + file, p[..2]);
    assert p[..2] + [p[2]] == p[..3];
    f := WriteLine(f, ";! Generator: " + generator, p[..3]);
    assert p[..3] + [p[3]] == p[..4];
    f := WriteLine(f, ";! Creation Date: " + date, p[..4]);
    assert p[..4] + [p[4]] == p[..5];
    f := WriteLine(f, ";!", p[..5]);
    assert p[..5] + [";!"] == p;
  }

  method WriteHeader(f: string, s: Sec) returns (f': string)
    ensures f' == f + ("" + "\n" + (HeaderLine(s) + "\n"))
  {
    f' := f + "\n";
    f' := f' + "[" + s.name + "]";
    if s.ignored {
      f' := f' + "(";
      f' := f' + "!";
      f' := f' + ")";
    }
    f' := f' + "\n";
  }

  method WriteVar(f: string, v: Var) returns (f': string)
    ensures f' == f + (VarLine(v) + "\n")
  {
    f' := f + v.name + " " + Sign(v) + " " + v.value + "\n";
  }

  // ---------- the file ----------

  /** fgets: the next chunk with its NUL in the buffer. */
  method Fgets(buf: array<char>, text: string, pos: nat) returns (n: nat)
    requires pos < |text| && buf.Length == LINE_SIZE
    modifies buf
    ensures n == ChunkSize(text[pos..]) && IsString(buf[..], 0, UpToNul(text[pos..][..n]))
  {
    ghost var rest := text[pos..];
    n := 0;
    while pos + n < |text| && n < LINE_SIZE - 1 && (n == 0 || text[pos + n - 1] != '\n')
      invariant pos + n <= |text| && n < LINE_SIZE
      invariant forall i :: 0 <= i < n ==> buf[i] == rest[i]
      invariant forall i :: 0 <= i < n - 1 ==> rest[i] != '\n'
    {
      buf[n] := text[pos + n];
      n := n + 1;
    }
    ChunkSizeIs(rest, n);
    buf[n] := NUL;
    StoredChunk(buf[..], rest[..n]);
  }

  lemma ChunkSizeIs(rest: string, n: nat)
    requires 0 < n <= |rest| && n < LINE_SIZE && forall i :: 0 <= i < n - 1 ==> rest[i] != '\n'
    requires n == |rest| || n == LINE_SIZE - 1 || rest[n - 1] == '\n'
    ensures ChunkSize(rest) == n
  {
    if rest[n - 1] == '\n' {
      IndexIs(rest, '\n', n - 1);
    }
  }

  lemma StoredChunk(b: seq<char>, chunk: string)
    requires |chunk| < |b| && b[|chunk|] == NUL && forall i :: 0 <= i < |chunk| ==> b[i] == chunk[i]
    ensures IsString(b, 0, UpToNul(chunk))
  {
    var s := UpToNul(chunk);
    assert b[0..|s|] == s;
  }

  /** config_text_file_load: chunk by chunk, comments out, blanks off, and the line processed. */
  method LoadText(text: string) returns (ok: bool, cfg: Config)
    requires Load(text) != Hung && Load(text) != Outside
    ensures ok ==> cfg.Valid() && Load(text) == Ok(cfg.View())
    ensures !ok ==> Load(text) == Failed
  {
    hide IsString, ReadText, ChunkSize, LoadChunks, CommentStrip.ScanLine;
    var nest, lineno := new int[CommentStrip.MAX_NEXT_COMMENT], 0;
    cfg := new Config();
    var buf := new char[LINE_SIZE](_ => NUL);
    var pos, comment := 0, 0;
    ok := true;
    assert text[0..] == text;
    while pos < |text|
      invariant 0 <= pos <= |text| && cfg.Valid() && fresh(cfg) && fresh(buf) && fresh(nest)
      invariant comment <= CommentStrip.MAX_NEXT_COMMENT
      invariant if ok then LoadChunks(Chunks(text[pos..]), comment, cfg.View()) == Load(text)
                else Close(comment, Failed) == Load(text)
    {
      var n := Fgets(buf, text, pos);
      NextChunk(text, pos, n);
      ghost var chunk := UpToNul(text[pos..][..n]);
      ghost var o := CommentStrip.ScanLine(chunk, comment);
      LoadStep(text[pos..][..n], Chunks(text[pos + n..]), comment, cfg.View());
      LineDepth(chunk, comment);
      var processBuf;
      lineno := lineno + 1;
      comment, processBuf := CommentStrip.StripLine(buf, comment, nest, lineno, chunk);
      ok := cfg.ReadLine(buf, processBuf, o.text);
      if !ok {
        break;
      }
      pos := pos + n;
    }
    if ok {
      LoadEnds(comment, cfg.View());
    }
    if comment != 0 {
      var beginning := nest[comment - 1];   // for the warning
    }
  }

  lemma LineDepth(line: string, depth: int)
    requires depth <= CommentStrip.MAX_NEXT_COMMENT
    ensures var o := CommentStrip.ScanLine(line, depth); o.Done? ==> o.depth <= CommentStrip.MAX_NEXT_COMMENT
  {
    CommentStrip.DepthStays("", line, depth, if depth == 0 then CommentStrip.Open else CommentStrip.Absent);
  }

  lemma LoadEnds(depth: int, s: State)
    requires Good(s)
    ensures LoadChunks(Chunks(""), depth, s) == Close(depth, Ok(s))
  {
  }

  lemma LoadStep(chunk: string, chunks: seq<string>, depth: int, s: State)
    requires Good(s)
    ensures var o, all := CommentStrip.ScanLine(UpToNul(chunk), depth), LoadChunks([chunk] + chunks, depth, s);
      if o.Hangs? then all == Hung
      else if o.Outside? then all == Outside
      else if ReadText(s, o.text).Ok? then all == LoadChunks(chunks, o.depth, ReadText(s, o.text).state)
      else all == if ReadText(s, o.text) == Failed then Close(o.depth, Failed) else ReadText(s, o.text)
  {
    assert ([chunk] + chunks)[1..] == chunks;
  }

  lemma NextChunk(text: string, pos: nat, n: nat)
    requires pos < |text| && n == ChunkSize(text[pos..])
    ensures 0 < n && pos + n <= |text|
    ensures Chunks(text[pos..]) == [text[pos..][..n]] + Chunks(text[pos + n..])
  {
    assert text[pos..][n..] == text[pos + n..];
  }

  lemma FindIs(cfg: seq<Sec>, name: string, k: nat)
    requires k <= |cfg| && (k < |cfg| ==> CaseEq(cfg[k].name, name))
    requires forall i :: 0 <= i < k ==> !CaseEq(cfg[i].name, name)
    ensures Find(cfg, name) == k
  {
  }
}
