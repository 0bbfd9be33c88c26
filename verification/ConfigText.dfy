/** The text form of a configuration: the printer config_text_file_save and the reader
    config_text_file_load of config.c, and why the reader undoes the printer. */
module ConfigText {

  import opened Common
  import opened Strings
  import CommentStrip
  import opened Sections

  /** A section; an ignored one is a template. */
  datatype Sec = Sec(name: string, ignored: bool, vars: seq<Var>)

  const NAME_SIZE := 80
  const LINE_SIZE := 8192

  // ---------- the printer ----------

  function Sign(v: Var): string {
    if v.arrow then "=>" else "="
  }

  function VarLine(v: Var): string {
    v.name + " " + Sign(v) + " " + v.value
  }

  function VarLines(vars: seq<Var>): seq<string> {
    if vars == [] then [] else [VarLine(vars[0])] + VarLines(vars[1..])
  }

  function HeaderLine(s: Sec): string {
    "[" + s.name + "]" + if s.ignored then "(!)" else ""
  }

  /** Sections without comments of their own; the list of template instances is never filled,
      so inherited variables are printed in full. */
  function SectionLines(cfg: seq<Sec>): seq<string> {
    if cfg == [] then []
    else ["", HeaderLine(cfg[0])] + VarLines(cfg[0].vars) + SectionLines(cfg[1..])
  }

  const TITLE: string := "Automatically generated " + "configuration file"

  function Preamble(file: string, generator: string, date: string): seq<string> {
    [";!", ";! " + TITLE, ";! Filename: " + file, ";! Generator: " + generator,
     ";! Creation Date: " + date, ";!"]
  }

  function Text(lines: seq<string>): string {
    if lines == [] then "" else lines[0] + "\n" + Text(lines[1..])
  }

  function Save(cfg: seq<Sec>, file: string, generator: string, date: string): string {
    Text(Preamble(file, generator, date) + SectionLines(cfg))
  }

  // ---------- the reader ----------

  function Index(s: string, c: char): (k: nat)
    ensures k <= |s| && (k < |s| ==> s[k] == c) && forall i :: 0 <= i < k ==> s[i] != c
  {
    if s == "" || s[0] == c then 0 else 1 + Index(s[1..], c)
  }

  /** fgets with a buffer of LINE_SIZE characters. */
  function ChunkSize(text: string): (n: nat)
    ensures n <= |text| && (text != "" ==> n > 0) && n < LINE_SIZE
  {
    var k := Index(text, '\n');
    var n := if k < |text| then k + 1 else k;
    if n < LINE_SIZE then n else LINE_SIZE - 1
  }

  function Chunks(text: string): seq<string> {
    if text == "" then [] else [text[..ChunkSize(text)]] + Chunks(text[ChunkSize(text)..])
  }

  /** What a C string function sees of a buffer. */
  function UpToNul(s: string): string {
    s[..Index(s, NUL)]
  }

  /** strsep at commas. */
  function Options(s: string): seq<string>
    decreases |s|
  {
    var k := Index(s, ',');
    if k == |s| then [s] else [s[..k]] + Options(s[k + 1..])
  }

  /** The sections so far and the one that variables go to. */
  datatype State = State(cfg: seq<Sec>, cur: int)
  datatype Result = Ok(state: State) | Failed | Hung | Outside

  predicate Good(s: State) {
    -1 <= s.cur < |s.cfg|
  }

  /** section_get with templates included. */
  function Find(cfg: seq<Sec>, name: string): (k: nat)
    ensures k <= |cfg| && (k < |cfg| ==> CaseEq(cfg[k].name, name))
    ensures forall i :: 0 <= i < k ==> !CaseEq(cfg[i].name, name)
  {
    if cfg == [] || CaseEq(cfg[0].name, name) then 0 else 1 + Find(cfg[1..], name)
  }

  /** variable_clone does not copy the kind of the variable. */
  function Cloned(vars: seq<Var>): seq<Var> {
    seq(|vars|, i requires 0 <= i < |vars| => vars[i].(arrow := false))
  }

  /** The section a header line is about: a new one not yet in the list, or, after `+`, one
      that is there already. */
  datatype Target = New(sec: Sec) | Old(index: nat)

  function SecOf(cfg: seq<Sec>, t: Target): Sec
    requires t.Old? ==> t.index < |cfg|
  {
    if t.New? then t.sec else cfg[t.index]
  }

  datatype Applied = Applied(cfg: seq<Sec>, target: Target) | Missing | Endless

  predicate Fits(cfg: seq<Sec>, t: Target) {
    t.Old? ==> t.index < |cfg|
  }

  /** inherit_section: a section that is told to inherit from itself is walked while it grows. */
  function Inherit(cfg: seq<Sec>, t: Target, base: nat): (r: Applied)
    requires Fits(cfg, t) && base < |cfg|
    ensures r.Applied? ==> |r.cfg| == |cfg| && Fits(cfg, r.target)
  {
    var sec := SecOf(cfg, t);
    var more := sec.(vars := sec.vars + Cloned(cfg[base].vars));
    if t == Old(base) && sec.vars != [] then Endless
    else if t.New? then Applied(cfg, New(more))
    else Applied(cfg[t.index := more], t)
  }

  /** One option of a header line: `!`, `+`, or the name of a section to inherit from. */
  function ApplyOne(cfg: seq<Sec>, name: string, t: Target, opt: string): (r: Applied)
    requires Fits(cfg, t)
    ensures r.Applied? ==> |r.cfg| == |cfg| && Fits(cfg, r.target)
  {
    if CaseEq(opt, "!") then
      var sec := SecOf(cfg, t).(ignored := true);
      if t.New? then Applied(cfg, New(sec)) else Applied(cfg[t.index := sec], t)
    else if CaseEq(opt, "+") then
      var k := Find(cfg, name);
      if k == |cfg| then Missing
      else if t.New? then Applied(cfg[k := cfg[k].(vars := cfg[k].vars + t.sec.vars)], Old(k))
      else Applied(cfg, Old(k))
    else
      var k := Find(cfg, opt);
      if k == |cfg| then Missing else Inherit(cfg, t, k)
  }

  function Apply(cfg: seq<Sec>, name: string, t: Target, opts: seq<string>): (r: Applied)
    requires Fits(cfg, t)
    ensures r.Applied? ==> |r.cfg| == |cfg| && Fits(cfg, r.target)
    decreases |opts|
  {
    if opts == [] then Applied(cfg, t)
    else match ApplyOne(cfg, name, t, opts[0])
         case Applied(cfg', t') => Apply(cfg', name, t', opts[1..])
         case Missing => Missing
         case Endless => Endless
  }

  function Truncated(name: string): string {
    if |name| < NAME_SIZE then name else name[..NAME_SIZE - 1]
  }

  function HeaderOf(s: State, name: string, opts: seq<string>): (r: Result)
    requires Good(s)
    ensures r.Ok? ==> Good(r.state)
  {
    match Apply(s.cfg, name, New(Sec(Truncated(name), false, [])), opts)
    case Missing => Failed
    case Endless => Hung
    case Applied(cfg, New(sec)) => Ok(State(cfg + [sec], |cfg|))
    case Applied(cfg, Old(k)) => Ok(State(cfg, k))
  }

  /** The name in the brackets, and what stands in parentheses right behind them. */
  datatype Heading = Malformed | Plain(name: string) | WithOptions(name: string, opts: string)

  function HeadingOf(name: string, tail: string): Heading {
    if tail == "" || tail[0] != '(' then Plain(name)
    else
      var e := Index(tail, ')');
      if e == |tail| then Malformed else WithOptions(name, tail[1..e])
  }

  /** A header line; `rest` is what follows the bracket. */
  function SplitHeader(rest: string): Heading {
    var k := Index(rest, ']');
    if k == |rest| then Malformed else HeadingOf(rest[..k], rest[k + 1..])
  }

  function Header(s: State, rest: string): (r: Result)
    requires Good(s)
    ensures r.Ok? ==> Good(r.state)
  {
    match SplitHeader(rest)
    case Malformed => Failed
    case Plain(name) => HeaderOf(s, name, [])
    case WithOptions(name, opts) => HeaderOf(s, name, Options(opts))
  }

  function VarOf(line: string, k: nat): Var
    requires k < |line|
  {
    var arrow := k + 1 < |line| && line[k + 1] == '>';
    Var(Strip(line[..k]), Strip(line[if arrow then k + 2 else k + 1..]), arrow)
  }

  function AddVar(s: State, v: Var): State
    requires Good(s) && s.cur >= 0
  {
    s.(cfg := s.cfg[s.cur := s.cfg[s.cur].(vars := s.cfg[s.cur].vars + [v])])
  }

  /** process_text_line on a stripped line that is not empty; directives change nothing. */
  function Process(s: State, line: string): (r: Result)
    requires Good(s) && line != ""
    ensures r.Ok? ==> Good(r.state)
  {
    if line[0] == '[' then Header(s, line[1..])
    else if line[0] == '#' then Ok(s)
    else if s.cur < 0 then Failed
    else
      var k := Index(line, '=');
      if k == |line| then Ok(s) else Ok(AddVar(s, VarOf(line, k)))
  }

  /** One line of the file, after comment stripping. */
  function ReadText(s: State, text: Option<string>): (r: Result)
    requires Good(s)
    ensures r.Ok? ==> Good(r.state)
  {
    if text.None? || Strip(text.value) == "" then Ok(s) else Process(s, Strip(text.value))
  }

  /** After the last line that is read nest[depth - 1] is looked up, if a comment is open. */
  function Close(depth: int, r: Result): Result {
    if depth < 0 then Outside else r
  }

  function LoadChunks(chunks: seq<string>, depth: int, s: State): (r: Result)
    requires Good(s)
    ensures r.Ok? ==> Good(r.state)
  {
    if chunks == [] then Close(depth, Ok(s))
    else match CommentStrip.ScanLine(UpToNul(chunks[0]), depth)
         case Hangs => Hung
         case Outside => Outside
         case Done(next, text) =>
           match ReadText(s, text)
           case Ok(s') => LoadChunks(chunks[1..], next, s')
           case Failed => Close(next, Failed)
           case Hung => Hung
           case Outside => Outside
  }

  /** config_text_file_load into an empty configuration. */
  function Load(text: string): Result {
    LoadChunks(Chunks(text), 0, State([], -1))
  }

  /** Once a comment end has strayed the load leaves nest, at the end of the file if not before. */
  lemma {:induction false} BelowZeroIsOutside(chunks: seq<string>, depth: int, s: State)
    requires Good(s) && depth < 0
    ensures LoadChunks(chunks, depth, s) == Outside
  {
    hide CommentStrip.Scan, Process, Strip;
    if chunks != [] {
      var line := UpToNul(chunks[0]);
      CommentStrip.NegativeStays("", line, depth, CommentStrip.Absent);
      if CommentStrip.ScanLine(line, depth).Done? {
        BelowZeroIsOutside(chunks[1..], CommentStrip.ScanLine(line, depth).depth, s);
      }
    }
  }

  function LinesOf(chunks: seq<string>): seq<string> {
    seq(|chunks|, i requires 0 <= i < |chunks| => UpToNul(chunks[i]))
  }

  /** A file that loads has no stray comment end, and a load that leaves nest has met one. */
  lemma {:induction false} LoadNests(chunks: seq<string>, depth: nat, s: State)
    requires Good(s)
    ensures LoadChunks(chunks, depth, s).Ok? ==> CommentStrip.WellNested(LinesOf(chunks), depth)
    ensures LoadChunks(chunks, depth, s) == Outside ==> !CommentStrip.WellNested(LinesOf(chunks), depth)
  {
    hide CommentStrip.ScanLine, CommentStrip.Nested, CommentStrip.Strays, Process, Strip;
    if chunks != [] {
      var line := UpToNul(chunks[0]);
      var o, f := CommentStrip.ScanLine(line, depth), CommentStrip.Nested("", line, depth);
      assert LinesOf(chunks)[0] == line && LinesOf(chunks)[1..] == LinesOf(chunks[1..]);
      CommentStrip.LineIsNested(line, depth);
      if o.Done? { ReadTextStays(s, o.text); }
      if o.Done? && ReadText(s, o.text).Ok? {
        if o.depth < 0 {
          BelowZeroIsOutside(chunks[1..], o.depth, ReadText(s, o.text).state);
        } else {
          LoadNests(chunks[1..], o.depth, ReadText(s, o.text).state);
        }
      }
    }
  }

  lemma ReadTextStays(s: State, text: Option<string>)
    requires Good(s)
    ensures ReadText(s, text) != Outside
  {
  }

  // ---------- what can be printed and read back ----------

  predicate OneLine(s: string) {
    '\n' !in s && NUL !in s
  }

  predicate PrintableVar(v: Var) {
    && OneLine(v.name) && Trimmed(v.name) && CommentStrip.EscapedOnly(v.name) && '=' !in v.name
    && (v.name != "" ==> v.name[0] != '[' && v.name[0] != '#')
    && OneLine(v.value) && Trimmed(v.value) && CommentStrip.EscapedOnly(v.value)
    && |VarLine(v)| < LINE_SIZE - 1
  }

  predicate PrintableSec(s: Sec) {
    && OneLine(s.name) && CommentStrip.EscapedOnly(s.name) && ']' !in s.name && |s.name| < NAME_SIZE
    && forall i :: 0 <= i < |s.vars| ==> PrintableVar(s.vars[i])
  }

  predicate Printable(cfg: seq<Sec>) {
    forall i :: 0 <= i < |cfg| ==> PrintableSec(cfg[i])
  }

  // ---------- reading lines back ----------

  lemma IndexIs(s: string, c: char, k: nat)
    requires k <= |s| && (k < |s| ==> s[k] == c) && forall i :: 0 <= i < k ==> s[i] != c
    ensures Index(s, c) == k
  {
  }

  /** A line as the printer writes it. */
  predicate Written(line: string) {
    OneLine(line) && |line| < LINE_SIZE - 1
  }

  lemma FirstChunk(line: string, rest: string)
    requires Written(line)
    ensures var text := line + "\n" + rest;
      text != "" && text[..ChunkSize(text)] == line + "\n" && text[ChunkSize(text)..] == rest
  {
    IndexIs(line + "\n" + rest, '\n', |line|);
  }

  function AddNewlines(lines: seq<string>): seq<string> {
    if lines == [] then [] else [lines[0] + "\n"] + AddNewlines(lines[1..])
  }

  lemma {:induction false} ChunksOfText(lines: seq<string>)
    requires forall i :: 0 <= i < |lines| ==> Written(lines[i])
    ensures Chunks(Text(lines)) == AddNewlines(lines)
  {
    if lines != [] {
      FirstChunk(lines[0], Text(lines[1..]));
      ChunksOfText(lines[1..]);
    }
  }

  lemma NoNul(line: string)
    requires OneLine(line)
    ensures UpToNul(line + "\n") == line + "\n"
  {
    IndexIs(line + "\n", NUL, |line| + 1);
  }

  /** The newline is stripped together with other blanks. */
  lemma StripNewline(m: string)
    ensures Strip(m + "\n") == Strip(m)
  {
    var a, b := StripSplits(m);
    StripIs(a, Strip(m), b + "\n");
    assert a + Strip(m) + (b + "\n") == m + "\n";
  }

  /** A written line without comments reaches the line processing as it is, stripped. */
  lemma ReadLine(line: string, more: seq<string>, s: State)
    requires Good(s) && Written(line) && CommentStrip.EscapedOnly(line)
    ensures LoadChunks(AddNewlines([line] + more), 0, s) ==
      match (if Strip(line) == "" then Ok(s) else Process(s, Strip(line)))
      case Ok(s') => LoadChunks(AddNewlines(more), 0, s')
      case Failed => Failed
      case Hung => Hung
      case Outside => Outside
  {
    hide Process, CommentStrip.Scan, Strip;
    NoNul(line);
    StripNewline(line);
    CommentStrip.EscapedLine("", line + "\n");
    assert "" + (line + "\n") == line + "\n";
    assert ([line] + more)[1..] == more;
  }

  lemma ReadComment(line: string, more: seq<string>, s: State)
    requires Good(s) && Written(line) && |line| > 1 && line[0] == ';' && line[1] == '!'
    ensures LoadChunks(AddNewlines([line] + more), 0, s) == LoadChunks(AddNewlines(more), 0, s)
  {
    NoNul(line);
    CommentStrip.CommentLine(line + "\n");
    assert ([line] + more)[1..] == more;
  }

  lemma HeaderSplits(name: string, tail: string, rest: string)
    requires ']' !in name && rest == name + "]" + tail
    ensures Index(rest, ']') == |name| < |rest| && rest[..|name|] == name && rest[|name| + 1..] == tail
  {
    IndexIs(rest, ']', |name|);
  }

  lemma OptionsSplit(opts: string, tail: string)
    requires ')' !in opts && tail == "(" + opts + ")"
    ensures tail[0] == '(' && Index(tail, ')') == |opts| + 1 < |tail| && tail[1..|opts| + 1] == opts
  {
    IndexIs(tail, ')', |opts| + 1);
  }

  /** The parts of a header line with options. */
  lemma OptionsParse(s: State, name: string, opts: string, rest: string)
    requires Good(s) && ']' !in name && ')' !in opts && rest == name + "]" + ("(" + opts + ")")
    ensures Header(s, rest) == HeaderOf(s, name, Options(opts))
  {
    hide HeaderOf, Options;
    HeaderSplits(name, "(" + opts + ")", rest);
    OptionsSplit(opts, "(" + opts + ")");
  }

  lemma NoOptionsParse(s: State, name: string)
    requires Good(s) && ']' !in name
    ensures Header(s, name + "]") == HeaderOf(s, name, [])
  {
    hide HeaderOf;
    IndexIs(name + "]", ']', |name|);
    assert (name + "]")[..|name|] == name;
  }

  lemma OneOption(opt: string)
    requires ',' !in opt
    ensures Options(opt) == [opt] && [opt][1..] == []
  {
    IndexIs(opt, ',', |opt|);
  }

  lemma HeaderParses(s: State, sec: Sec)
    requires Good(s) && PrintableSec(sec)
    ensures HeaderLine(sec)[0] == '['
    ensures Header(s, HeaderLine(sec)[1..]) == HeaderOf(s, sec.name, if sec.ignored then ["!"] else [])
  {
    hide Header, HeaderOf;
    var rest := HeaderLine(sec)[1..];
    if sec.ignored {
      OneOption("!");
      assert "(" + "!" + ")" == "(!)";
      OptionsParse(s, sec.name, "!", rest);
    } else {
      NoOptionsParse(s, sec.name);
      assert rest == sec.name + "]";
    }
  }

  lemma TemplateApplies(cfg: seq<Sec>, name: string, sec: Sec)
    ensures Apply(cfg, name, New(sec), ["!"]) == Applied(cfg, New(sec.(ignored := true)))
  {
    assert ["!"][1..] == [];
    assert ApplyOne(cfg, name, New(sec), "!") == Applied(cfg, New(sec.(ignored := true)));
  }

  lemma ReadHeader(s: State, sec: Sec)
    requires Good(s) && PrintableSec(sec)
    ensures Strip(HeaderLine(sec)) == HeaderLine(sec) != ""
    ensures Process(s, HeaderLine(sec)) == Ok(State(s.cfg + [Sec(sec.name, sec.ignored, [])], |s.cfg|))
  {
    hide Header, Strip;
    var line := HeaderLine(sec);
    StripIs("", line, "");
    assert "" + line + "" == line;
    HeaderParses(s, sec);
    TemplateApplies(s.cfg, sec.name, Sec(sec.name, false, []));
  }

  lemma Pieces(left: string, sign: string, right: string, m: string)
    requires m == left + sign + right && sign != ""
    ensures m[..|left|] == left && m[|left|..] == sign + right && m[|left| + |sign|..] == right
    ensures m[|left|] == sign[0] && (left != "" ==> m[0] == left[0])
    ensures m[|m| - 1] == if right == "" then sign[|sign| - 1] else right[|right| - 1]
  {
  }

  lemma Regroup(a: string, left: string, sign: string, right: string, b: string)
    ensures a + (left + sign + right) + b == (a + left) + sign + (right + b)
  {
  }

  /** The pieces of a variable line: the name with its blank, the sign, the blank with the value. */
  lemma LinePieces(v: Var, left: string, right: string, sign: string, m: string)
    requires left == (if v.name == "" then "" else v.name + " ")
      && right == (if v.value == "" then "" else " " + v.value)
    requires sign == Sign(v) && m == left + sign + right
    ensures VarLine(v) == (if v.name == "" then " " else "") + m + (if v.value == "" then " " else "")
  {
    hide Sign;
    var a, b := if v.name == "" then " " else "", if v.value == "" then " " else "";
    assert a + left == v.name + " " && right + b == " " + v.value;
    Regroup(a, left, sign, right, b);
    assert VarLine(v) == (v.name + " ") + sign + (" " + v.value);
  }

  /** A variable line without outer blanks begins with the name or the sign, and ends with the
      value or the sign. */
  lemma PiecesTrimmed(v: Var, left: string, right: string, m: string)
    requires left == (if v.name == "" then "" else v.name + " ")
      && right == (if v.value == "" then "" else " " + v.value)
    requires m == left + Sign(v) + right && Trimmed(v.name) && Trimmed(v.value)
    ensures Trimmed(m) && m != "" && m[0] == if v.name == "" then '=' else v.name[0]
  {
    Pieces(left, Sign(v), right, m);
    assert v.value != "" ==> right[|right| - 1] == v.value[|v.value| - 1];
  }

  /** The stripped text of a variable line, and where its equal sign is. */
  lemma VarLineStripped(v: Var) returns (m: string, k: nat)
    requires PrintableVar(v)
    ensures m == Strip(VarLine(v)) && k == Index(m, '=') < |m|
    ensures m[0] == if v.name == "" then '=' else v.name[0]
    ensures m[..k] == if v.name == "" then "" else v.name + " "
    ensures v.arrow <==> k + 1 < |m| && m[k + 1] == '>'
    ensures k + 2 <= |m| || !v.arrow
    ensures m[if v.arrow then k + 2 else k + 1..] == if v.value == "" then "" else " " + v.value
  {
    hide Strip, VarLine, Index, OneLine, CommentStrip.EscapedOnly, AllBlank, Trimmed, Blank;
    var left, right := if v.name == "" then "" else v.name + " ", if v.value == "" then "" else " " + v.value;
    m, k := left + Sign(v) + right, |left|;
    LinePieces(v, left, right, Sign(v), m);
    Pieces(left, Sign(v), right, m);
    PiecesTrimmed(v, left, right, m);
    ArrowPlace(v, left, right, m);
    Blanks();
    StripIs(if v.name == "" then " " else "", m, if v.value == "" then " " else "");
    SignPlace(v, left, m);
  }

  lemma Blanks()
    ensures AllBlank("") && AllBlank(" ")
  {
  }

  lemma ArrowPlace(v: Var, left: string, right: string, m: string)
    requires m == left + Sign(v) + right && (right == "" || right[0] == ' ')
    ensures v.arrow <==> |left| + 1 < |m| && m[|left| + 1] == '>'
    ensures m[if v.arrow then |left| + 2 else |left| + 1..] == right
  {
  }

  lemma SignPlace(v: Var, left: string, m: string)
    requires left == (if v.name == "" then "" else v.name + " ") && '=' !in v.name
    requires |left| < |m| && m[..|left|] == left && m[|left|] == '='
    ensures Index(m, '=') == |left|
  {
    assert forall i :: 0 <= i < |left| ==> m[i] == left[i];
    IndexIs(m, '=', |left|);
  }

  lemma ReadVar(s: State, v: Var)
    requires Good(s) && s.cur >= 0 && PrintableVar(v)
    ensures var m := Strip(VarLine(v)); m != "" && Process(s, m) == Ok(AddVar(s, v))
  {
    hide Strip, VarLine, CommentStrip.EscapedOnly, Index, OneLine, AllBlank, Trimmed, Header, Sign, VarOf;
    var m, k := VarLineStripped(v);
    VarBack(v, m, k);
  }

  lemma VarBack(v: Var, m: string, k: nat)
    requires PrintableVar(v) && k < |m|
    requires m[..k] == if v.name == "" then "" else v.name + " "
    requires v.arrow <==> k + 1 < |m| && m[k + 1] == '>'
    requires k + 2 <= |m| || !v.arrow
    requires m[if v.arrow then k + 2 else k + 1..] == if v.value == "" then "" else " " + v.value
    ensures VarOf(m, k) == v
  {
    hide Strip, VarLine, CommentStrip.EscapedOnly, OneLine, AllBlank, Trimmed;
    Blanks();
    StripPadded(v.name, "", " ");
    StripPadded(v.value, " ", "");
  }

  lemma StripPadded(t: string, a: string, b: string)
    requires Trimmed(t) && AllBlank(a) && AllBlank(b)
    ensures Strip(a + t + b) == t && Strip("") == ""
    ensures a == "" ==> a + t + b == t + b
    ensures b == "" ==> a + t + b == a + t
  {
    StripIs(a, t, b);
  }

  lemma EscapedJoin(a: string, sign: string, b: string)
    requires CommentStrip.EscapedOnly(a) && CommentStrip.EscapedOnly(b) && ';' !in sign
    ensures CommentStrip.EscapedOnly(a + sign + b)
  {
    var line := a + sign + b;
    forall i | 0 <= i < |line| && line[i] == ';'
      ensures i > 0 && line[i - 1] == '\\'
    {
      if i >= |a| + |sign| {
        assert b[i - |a| - |sign|] == ';';
      }
    }
  }

  lemma VarLineWritten(v: Var)
    requires PrintableVar(v)
    ensures Written(VarLine(v)) && CommentStrip.EscapedOnly(VarLine(v))
  {
    hide CommentStrip.EscapedOnly, Trimmed;
    var sign := " " + Sign(v) + " ";
    assert VarLine(v) == v.name + sign + v.value;
    EscapedJoin(v.name, sign, v.value);
  }

  lemma HeaderLineWritten(s: Sec)
    requires PrintableSec(s)
    ensures Written(HeaderLine(s)) && CommentStrip.EscapedOnly(HeaderLine(s))
  {
    var line := HeaderLine(s);
    forall i | 0 <= i < |line| && line[i] == ';'
      ensures i > 0 && line[i - 1] == '\\'
    {
      assert line[i] == s.name[i - 1];
    }
  }

  function AddVars(s: State, vars: seq<Var>): (r: State)
    requires Good(s) && s.cur >= 0
    ensures Good(r) && r.cur == s.cur
    decreases |vars|
  {
    if vars == [] then s else AddVars(AddVar(s, vars[0]), vars[1..])
  }

  lemma {:induction false} ReadVars(s: State, vars: seq<Var>, more: seq<string>)
    requires Good(s) && s.cur >= 0 && forall i :: 0 <= i < |vars| ==> PrintableVar(vars[i])
    ensures LoadChunks(AddNewlines(VarLines(vars) + more), 0, s) == LoadChunks(AddNewlines(more), 0, AddVars(s, vars))
    decreases |vars|
  {
    hide PrintableVar, Process;
    if vars == [] {
      assert VarLines(vars) + more == more;
    } else {
      var rest := VarLines(vars[1..]) + more;
      assert VarLines(vars) + more == [VarLine(vars[0])] + rest;
      VarLineWritten(vars[0]);
      ReadLine(VarLine(vars[0]), rest, s);
      ReadVar(s, vars[0]);
      ReadVars(AddVar(s, vars[0]), vars[1..], more);
    }
  }

  lemma {:induction false} AddVarsAll(s: State, vars: seq<Var>)
    requires Good(s) && s.cur >= 0
    ensures AddVars(s, vars) == s.(cfg := s.cfg[s.cur := s.cfg[s.cur].(vars := s.cfg[s.cur].vars + vars)])
    decreases |vars|
  {
    var was := s.cfg[s.cur].vars;
    if vars == [] {
      assert was + vars == was;
    } else {
      AddVarsAll(AddVar(s, vars[0]), vars[1..]);
      assert was + [vars[0]] + vars[1..] == was + vars;
    }
  }

  lemma ReadSection(s: State, sec: Sec, more: seq<string>)
    requires Good(s) && PrintableSec(sec)
    ensures LoadChunks(AddNewlines(["", HeaderLine(sec)] + VarLines(sec.vars) + more), 0, s)
         == LoadChunks(AddNewlines(more), 0, State(s.cfg + [sec], |s.cfg|))
  {
    assert Strip("") == "";
    hide PrintableVar, Process, LoadChunks, VarLines, AddNewlines, Strip, HeaderLine;
    var vars := VarLines(sec.vars) + more;
    LinesInOrder(HeaderLine(sec), VarLines(sec.vars), more);
    ReadLine("", [HeaderLine(sec)] + vars, s);
    HeaderLineWritten(sec);
    ReadLine(HeaderLine(sec), vars, s);
    ReadHeader(s, sec);
    var s1 := State(s.cfg + [Sec(sec.name, sec.ignored, [])], |s.cfg|);
    ReadVars(s1, sec.vars, more);
    AddVarsAll(s1, sec.vars);
    LastReplaced(s.cfg, Sec(sec.name, sec.ignored, []), sec);
  }

  lemma LinesInOrder(header: string, vars: seq<string>, more: seq<string>)
    ensures ["", header] + vars + more == [""] + ([header] + (vars + more))
  {
  }

  lemma LastReplaced(cfg: seq<Sec>, a: Sec, b: Sec)
    ensures (cfg + [a])[|cfg|] == a && (cfg + [a])[|cfg| := b] == cfg + [b] && [] + b.vars == b.vars
  {
  }

  lemma LoadNothing(s: State)
    requires Good(s)
    ensures LoadChunks(AddNewlines([]), 0, s) == Ok(s)
  {
  }

  lemma {:induction false} ReadSections(s: State, cfg: seq<Sec>)
    requires Good(s) && s.cur == |s.cfg| - 1 && Printable(cfg)
    ensures LoadChunks(AddNewlines(SectionLines(cfg)), 0, s) == Ok(State(s.cfg + cfg, |s.cfg + cfg| - 1))
    decreases |cfg|
  {
    hide PrintableSec, Process, LoadChunks, AddNewlines, HeaderLine, VarLines;
    if cfg == [] {
      LoadNothing(s);
      assert s.cfg + cfg == s.cfg;
    } else {
      ReadSection(s, cfg[0], SectionLines(cfg[1..]));
      assert SectionLines(cfg) == ["", HeaderLine(cfg[0])] + VarLines(cfg[0].vars) + SectionLines(cfg[1..]);
      ReadSections(State(s.cfg + [cfg[0]], |s.cfg|), cfg[1..]);
      assert s.cfg + [cfg[0]] + cfg[1..] == s.cfg + cfg;
    }
  }

  // ---------- the round trip ----------

  /** A line of the preamble. */
  predicate Generated(line: string) {
    Written(line) && |line| > 1 && line[0] == ';' && line[1] == '!'
  }

  lemma {:induction false} ReadComments(lines: seq<string>, more: seq<string>, s: State)
    requires Good(s) && forall i :: 0 <= i < |lines| ==> Generated(lines[i])
    ensures LoadChunks(AddNewlines(lines + more), 0, s) == LoadChunks(AddNewlines(more), 0, s)
    decreases |lines|
  {
    if lines == [] {
      assert lines + more == more;
    } else {
      assert lines + more == [lines[0]] + (lines[1..] + more);
      ReadComment(lines[0], lines[1..] + more, s);
      ReadComments(lines[1..], more, s);
    }
  }

  ghost predicate AllWritten(lines: seq<string>) {
    forall i :: 0 <= i < |lines| ==> Written(lines[i])
  }

  lemma {:induction false} VarLinesWritten(vars: seq<Var>)
    requires forall i :: 0 <= i < |vars| ==> PrintableVar(vars[i])
    ensures AllWritten(VarLines(vars))
  {
    if vars != [] {
      VarLineWritten(vars[0]);
      VarLinesWritten(vars[1..]);
    }
  }

  lemma {:induction false} SectionLinesWritten(cfg: seq<Sec>)
    requires Printable(cfg)
    ensures AllWritten(SectionLines(cfg))
  {
    if cfg != [] {
      HeaderLineWritten(cfg[0]);
      VarLinesWritten(cfg[0].vars);
      SectionLinesWritten(cfg[1..]);
    }
  }

  predicate Remark(s: string) {
    OneLine(s) && |s| < LINE_SIZE - 100
  }

  lemma RemarkLine(prefix: string, s: string)
    requires Generated(prefix) && |prefix| <= 50 && Remark(s)
    ensures Generated(prefix + s)
  {
  }

  ghost predicate AllGenerated(lines: seq<string>) {
    forall i :: 0 <= i < |lines| ==> Generated(lines[i])
  }

  lemma TitleLine()
    ensures Remark("Automatically generated ") && Remark("configuration file")
    ensures Remark(TITLE) && Generated(";! ")
  {
  }

  lemma FixedLines()
    ensures Generated(";!") && Generated(";! Filename: ") && Generated(";! Generator: ")
  {
  }

  lemma DateLine()
    ensures Generated(";! Creation Date: ")
  {
  }

  lemma PreambleGenerated(file: string, generator: string, date: string)
    requires Remark(file) && Remark(generator) && Remark(date)
    ensures AllGenerated(Preamble(file, generator, date))
  {
    hide Generated, Remark;
    TitleLine();
    FixedLines();
    DateLine();
    RemarkLine(";! ", TITLE);
    RemarkLine(";! Filename: ", file);
    RemarkLine(";! Generator: ", generator);
    RemarkLine(";! Creation Date: ", date);
  }

  /** Saving and loading gives the same sections, in the same order and with the same names,
      template flags and variables, each with its name, value and kind. */
  lemma LoadSave(cfg: seq<Sec>, file: string, generator: string, date: string)
    requires Printable(cfg) && Remark(file) && Remark(generator) && Remark(date)
    ensures Load(Save(cfg, file, generator, date)) == Ok(State(cfg, |cfg| - 1))
  {
    hide PrintableSec, LoadChunks, AddNewlines, SectionLines, Preamble;
    var head, body := Preamble(file, generator, date), SectionLines(cfg);
    PreambleGenerated(file, generator, date);
    SectionLinesWritten(cfg);
    ChunksOfText(head + body);
    ReadComments(head, body, State([], -1));
    ReadSections(State([], -1), cfg);
    assert [] + cfg == cfg;
  }

  // ---------- inheritance ----------

  /** A section that names one other to inherit from starts with that section's variables in
      order, all of the plain kind. */
  lemma HeaderInherits(s: State, name: string, base: string)
    requires Good(s) && ']' !in name && ')' !in base && ',' !in base && |name| < NAME_SIZE
    requires !CaseEq(base, "!") && !CaseEq(base, "+")
    ensures var k := Find(s.cfg, base); var r := Process(s, "[" + name + "](" + base + ")");
      if k == |s.cfg| then r == Failed
      else r == Ok(State(s.cfg + [Sec(name, false, Cloned(s.cfg[k].vars))], |s.cfg|))
  {
    hide CaseEq, Header;
    var rest := name + "]" + ("(" + base + ")");
    assert ("[" + name + "](" + base + ")")[1..] == rest;
    OptionsParse(s, name, base, rest);
    OneOption(base);
    var k, sec := Find(s.cfg, base), Sec(name, false, []);
    assert k < |s.cfg| ==> [] + Cloned(s.cfg[k].vars) == Cloned(s.cfg[k].vars);
    assert Apply(s.cfg, name, New(sec), [base]) ==
      if k == |s.cfg| then Missing else Applied(s.cfg, New(sec.(vars := Cloned(s.cfg[k].vars))));
  }

  // ---------- headers with any options ----------

  /** The sections that a list of options names to inherit from. */
  predicate NamesBase(opt: string) {
    !CaseEq(opt, "!") && !CaseEq(opt, "+")
  }

  predicate Known(cfg: seq<Sec>, opts: seq<string>) {
    forall i :: 0 <= i < |opts| && NamesBase(opts[i]) ==> Find(cfg, opts[i]) < |cfg|
  }

  /** What is inherited from them, in the order in which they are named. */
  function Inherited(cfg: seq<Sec>, opts: seq<string>): seq<Var> {
    if opts == [] then []
    else
      var k := Find(cfg, opts[0]);
      (if NamesBase(opts[0]) && k < |cfg| then Cloned(cfg[k].vars) else []) + Inherited(cfg, opts[1..])
  }

  predicate Templates(opts: seq<string>) {
    exists i :: 0 <= i < |opts| && CaseEq(opts[i], "!")
  }

  predicate NoPlus(opts: seq<string>) {
    forall i :: 0 <= i < |opts| ==> !CaseEq(opts[i], "+")
  }

  /** The first option, and the others. */
  lemma OptionsCons(cfg: seq<Sec>, opts: seq<string>)
    requires opts != []
    ensures Known(cfg, opts) <==> (NamesBase(opts[0]) ==> Find(cfg, opts[0]) < |cfg|) && Known(cfg, opts[1..])
    ensures Templates(opts) <==> CaseEq(opts[0], "!") || Templates(opts[1..])
    ensures NoPlus(opts) <==> !CaseEq(opts[0], "+") && NoPlus(opts[1..])
  {
    hide CaseEq, Find, Templates, NamesBase;
    forall i | 0 <= i < |opts[1..]|
      ensures opts[1..][i] == opts[i + 1]
    {
    }
    forall i | 0 < i < |opts|
      ensures opts[i] == opts[1..][i - 1]
    {
    }
    TemplatesCons(opts);
  }

  lemma TemplatesCons(opts: seq<string>)
    requires opts != []
    ensures Templates(opts) <==> CaseEq(opts[0], "!") || Templates(opts[1..])
  {
    hide CaseEq;
    if Templates(opts[1..]) {
      var i :| 0 <= i < |opts[1..]| && CaseEq(opts[1..][i], "!");
      assert CaseEq(opts[i + 1], "!");
    }
    if Templates(opts) && !CaseEq(opts[0], "!") {
      var i :| 0 <= i < |opts| && CaseEq(opts[i], "!");
      assert CaseEq(opts[1..][i - 1], "!");
    }
  }

  /** Options for a section that is not in the list yet. */
  lemma {:induction false} NewTakes(cfg: seq<Sec>, name: string, sec: Sec, opts: seq<string>)
    requires NoPlus(opts)
    ensures Apply(cfg, name, New(sec), opts) ==
      if Known(cfg, opts)
      then Applied(cfg, New(Sec(sec.name, sec.ignored || Templates(opts), sec.vars + Inherited(cfg, opts))))
      else Missing
    decreases |opts|
  {
    hide CaseEq, Find, Cloned;
    if opts == [] {
      assert sec.vars + [] == sec.vars;
    } else {
      OptionsCons(cfg, opts);
      var k, rest := Find(cfg, opts[0]), Inherited(cfg, opts[1..]);
      if CaseEq(opts[0], "!") {
        NewTakes(cfg, name, sec.(ignored := true), opts[1..]);
        assert [] + rest == rest;
      } else if k < |cfg| {
        var more := Cloned(cfg[k].vars);
        NewTakes(cfg, name, sec.(vars := sec.vars + more), opts[1..]);
        assert sec.vars + more + rest == sec.vars + (more + rest);
      }
    }
  }

  /** A section of the same name is found in the same place. */
  lemma {:induction false} FindKeeps(cfg: seq<Sec>, cfg': seq<Sec>, name: string)
    requires |cfg'| == |cfg| && forall i :: 0 <= i < |cfg| ==> cfg'[i].name == cfg[i].name
    ensures Find(cfg', name) == Find(cfg, name)
  {
    hide CaseEq;
    if cfg != [] {
      FindKeeps(cfg[1..], cfg'[1..], name);
    }
  }

  lemma {:induction false} InheritedKeeps(cfg: seq<Sec>, k: nat, sec: Sec, opts: seq<string>)
    requires k < |cfg| && sec.name == cfg[k].name
    requires forall i :: 0 <= i < |opts| && NamesBase(opts[i]) ==> Find(cfg, opts[i]) != k
    ensures Inherited(cfg[k := sec], opts) == Inherited(cfg, opts)
    ensures Known(cfg[k := sec], opts) <==> Known(cfg, opts)
    ensures forall i :: 0 <= i < |opts| ==> Find(cfg[k := sec], opts[i]) == Find(cfg, opts[i])
    decreases |opts|
  {
    hide CaseEq, Find, Cloned;
    if opts != [] {
      FindKeeps(cfg, cfg[k := sec], opts[0]);
      assert opts == [opts[0]] + opts[1..];
      InheritedKeeps(cfg, k, sec, opts[1..]);
      OptionsCons(cfg, opts);
      OptionsCons(cfg[k := sec], opts);
    }
  }

  /** Options for a section of the list, the k-th, none of which names it to inherit from. */
  lemma {:induction false} OldTakes(cfg: seq<Sec>, name: string, k: nat, opts: seq<string>)
    requires NoPlus(opts) && k < |cfg|
    requires forall i :: 0 <= i < |opts| && NamesBase(opts[i]) ==> Find(cfg, opts[i]) != k
    ensures var sec := cfg[k];
      Apply(cfg, name, Old(k), opts) ==
      if Known(cfg, opts)
      then Applied(cfg[k := Sec(sec.name, sec.ignored || Templates(opts), sec.vars + Inherited(cfg, opts))], Old(k))
      else Missing
    decreases |opts|
  {
    hide CaseEq, Find, Cloned;
    var sec := cfg[k];
    if opts == [] {
      assert sec.vars + [] == sec.vars && cfg[k := sec] == cfg;
    } else {
      hide Templates, Known, NoPlus;
      OptionsCons(cfg, opts);
      var j, rest := Find(cfg, opts[0]), Inherited(cfg, opts[1..]);
      if CaseEq(opts[0], "!") || j < |cfg| {
        var more := if CaseEq(opts[0], "!") then [] else Cloned(cfg[j].vars);
        var sec1 := Sec(sec.name, sec.ignored || CaseEq(opts[0], "!"), sec.vars + more);
        var cfg1 := cfg[k := sec1];
        assert sec.vars + [] == sec.vars;
        InheritedKeeps(cfg, k, sec1, opts[1..]);
        OldTakes(cfg1, name, k, opts[1..]);
        assert sec.vars + more + rest == sec.vars + (more + rest);
        var end := Sec(sec.name, sec.ignored || Templates(opts), sec.vars + Inherited(cfg, opts));
        assert cfg1[k := end] == cfg[k := end];
        assert ApplyOne(cfg, name, Old(k), opts[0]) == Applied(cfg1, Old(k));
      }
    }
  }

  lemma {:induction false} ApplyJoin(cfg: seq<Sec>, name: string, t: Target, a: seq<string>, b: seq<string>)
    requires Fits(cfg, t)
    ensures var r := Apply(cfg, name, t, a);
      Apply(cfg, name, t, a + b) == if r.Applied? then Apply(r.cfg, name, r.target, b) else r
    decreases |a|
  {
    hide ApplyOne;
    if a == [] {
      assert a + b == b;
    } else {
      var r := ApplyOne(cfg, name, t, a[0]);
      assert (a + b)[1..] == a[1..] + b;
      if r.Applied? { ApplyJoin(r.cfg, name, r.target, a[1..], b); }
    }
  }

  /** Options with commas between them. */
  function Commas(opts: seq<string>): string
    requires opts != []
  {
    if |opts| == 1 then opts[0] else opts[0] + "," + Commas(opts[1..])
  }

  lemma CommaCut(a: string, b: string)
    requires ',' !in a
    ensures var s := a + "," + b;
      Index(s, ',') == |a| < |s| && s[..|a|] == a && s[|a| + 1..] == b
  {
    var s := a + "," + b;
    assert s[|a|] == ',';
    IndexIs(s, ',', |a|);
  }

  lemma {:induction false} CommasSplit(opts: seq<string>)
    requires opts != [] && forall i :: 0 <= i < |opts| ==> ',' !in opts[i]
    ensures Options(Commas(opts)) == opts
  {
    hide Index;
    if |opts| == 1 {
      OneOption(opts[0]);
      assert opts == [opts[0]];
    } else {
      CommasSplit(opts[1..]);
      CommaCut(opts[0], Commas(opts[1..]));
      assert opts == [opts[0]] + opts[1..];
    }
  }

  lemma {:induction false} CommasWithout(opts: seq<string>, c: char)
    requires opts != [] && c != ',' && forall i :: 0 <= i < |opts| ==> c !in opts[i]
    ensures c !in Commas(opts)
  {
    if |opts| > 1 {
      CommasWithout(opts[1..], c);
    }
  }

  lemma OptionsRead(s: State, name: string, opts: seq<string>)
    requires Good(s) && ']' !in name && opts != []
    requires forall i :: 0 <= i < |opts| ==> ',' !in opts[i] && ')' !in opts[i]
    ensures Process(s, "[" + name + "](" + Commas(opts) + ")") == HeaderOf(s, name, opts)
  {
    hide Header, HeaderOf, Options, Commas;
    HeaderParts(name, Commas(opts));
    CommasSplit(opts);
    CommasWithout(opts, ')');
    OptionsParse(s, name, Commas(opts), name + "]" + ("(" + Commas(opts) + ")"));
  }

  lemma HeaderParts(name: string, opts: string)
    ensures var line := "[" + name + "](" + opts + ")";
      line[0] == '[' && line[1..] == name + "]" + ("(" + opts + ")")
  {
  }

  /** A header with any options but `+`: a new section at the end, a template if one of them says
      so, that starts with the variables of all sections named, in that order; it fails
      exactly if one of those is missing. */
  lemma HeaderCreates(s: State, name: string, opts: seq<string>)
    requires Good(s) && ']' !in name && opts != [] && NoPlus(opts)
    requires forall i :: 0 <= i < |opts| ==> ',' !in opts[i] && ')' !in opts[i]
    ensures Process(s, "[" + name + "](" + Commas(opts) + ")") ==
      if Known(s.cfg, opts)
      then Ok(State(s.cfg + [Sec(name[..if |name| < 80 then |name| else 79], Templates(opts),
                                 Inherited(s.cfg, opts))], |s.cfg|))
      else Failed
  {
    hide CaseEq, Process, Commas, Apply;
    OptionsRead(s, name, opts);
    assert Truncated(name) == name[..if |name| < 80 then |name| else 79];
    NewTakes(s.cfg, name, Sec(Truncated(name), false, []), opts);
    assert [] + Inherited(s.cfg, opts) == Inherited(s.cfg, opts);
  }

  /** What follows the brackets of a header counts only if it begins with a parenthesis, and then
      only up to the one that closes it. */
  lemma HeaderIgnores(s: State, name: string, more: string)
    requires Good(s) && ']' !in name && (more == "" || more[0] != '(')
    ensures Process(s, "[" + name + "]" + more) == Process(s, "[" + name + "]")
  {
    hide HeaderOf, Options, Index;
    HeaderRest(name, more);
    HeaderRest(name, "");
    HeaderSplits(name, more, name + "]" + more);
    HeaderSplits(name, "", name + "]" + "");
  }

  lemma HeaderIgnoresBehind(s: State, name: string, opts: string, more: string)
    requires Good(s) && ']' !in name && ')' !in opts
    ensures Process(s, "[" + name + "](" + opts + ")" + more) == Process(s, "[" + name + "](" + opts + ")")
  {
    hide HeaderOf, Options, Process;
    OptionsRest(name, opts, more);
    OptionsRest(name, opts, "");
    TailRead(s, name, opts, more);
    TailRead(s, name, opts, "");
  }

  lemma TailRead(s: State, name: string, opts: string, more: string)
    requires Good(s) && ']' !in name && ')' !in opts
    ensures Process(s, "[" + name + "]" + ("(" + opts + ")" + more)) == HeaderOf(s, name, Options(opts))
  {
    hide HeaderOf, Options, Index;
    var tail := "(" + opts + ")" + more;
    HeaderRest(name, tail);
    HeaderSplits(name, tail, name + "]" + tail);
    TailSplit(opts, more);
  }

  lemma TailSplit(opts: string, more: string)
    requires ')' !in opts
    ensures var tail := "(" + opts + ")" + more;
      tail[0] == '(' && Index(tail, ')') == |opts| + 1 < |tail| && tail[1..|opts| + 1] == opts
  {
    var tail := "(" + opts + ")" + more;
    assert tail[|opts| + 1] == ')';
    assert forall i :: 0 < i <= |opts| ==> tail[i] == opts[i - 1];
    IndexIs(tail, ')', |opts| + 1);
  }

  lemma HeaderRest(name: string, tail: string)
    ensures var line := "[" + name + "]" + tail; line[0] == '[' && line[1..] == name + "]" + tail
    ensures tail == "" ==> "[" + name + "]" + tail == "[" + name + "]"
  {
  }

  lemma OptionsRest(name: string, opts: string, more: string)
    ensures "[" + name + "](" + opts + ")" + more == "[" + name + "]" + ("(" + opts + ")" + more)
    ensures "[" + name + "](" + opts + ")" + "" == "[" + name + "](" + opts + ")"
  {
  }

  /** A header with `+` among its options, and no option behind that which names the section
      itself: no new section, but the one of that name goes on, with the variables of all
      sections named; it fails exactly if that section or one of those is missing. */
  lemma HeaderExtends(s: State, name: string, pre: seq<string>, post: seq<string>)
    requires Good(s) && ']' !in name && NoPlus(pre) && NoPlus(post)
    requires forall i :: 0 <= i < |pre + ["+"] + post| ==>
      ',' !in (pre + ["+"] + post)[i] && ')' !in (pre + ["+"] + post)[i]
    requires forall i :: 0 <= i < |post| && NamesBase(post[i]) ==> Find(s.cfg, post[i]) != Find(s.cfg, name)
    ensures var k := Find(s.cfg, name);
      Process(s, "[" + name + "](" + Commas(pre + ["+"] + post) + ")") ==
      if k < |s.cfg| && Known(s.cfg, pre) && Known(s.cfg, post)
      then Ok(State(s.cfg[k := Sec(s.cfg[k].name, s.cfg[k].ignored || Templates(post),
                                   s.cfg[k].vars + Inherited(s.cfg, pre) + Inherited(s.cfg, post))], k))
      else Failed
  {
    hide Process, Commas, Find, Cloned, Inherited, Known, Templates, NoPlus, Apply, CaseEq, NamesBase;
    var opts, k, sec := pre + ["+"] + post, Find(s.cfg, name), Sec(Truncated(name), false, []);
    OptionsRead(s, name, opts);
    assert opts == pre + (["+"] + post);
    ApplyJoin(s.cfg, name, New(sec), pre, ["+"] + post);
    NewTakes(s.cfg, name, sec, pre);
    if Known(s.cfg, pre) {
      var taken := Inherited(s.cfg, pre);
      var new1 := New(Sec(sec.name, Templates(pre), taken));
      assert [] + taken == taken;
      PlusFinds(s.cfg, name, new1.sec, post);
      if k < |s.cfg| {
        var sec1 := s.cfg[k].(vars := s.cfg[k].vars + taken);
        var cfg1 := s.cfg[k := sec1];
        InheritedKeeps(s.cfg, k, sec1, post);
        OldTakes(cfg1, name, k, post);
        var end := Sec(sec1.name, sec1.ignored || Templates(post), sec1.vars + Inherited(s.cfg, post));
        assert cfg1[k := end] == s.cfg[k := end];
      }
    }
  }

  lemma PlusFinds(cfg: seq<Sec>, name: string, sec: Sec, post: seq<string>)
    ensures var k := Find(cfg, name);
      Apply(cfg, name, New(sec), ["+"] + post) ==
      if k == |cfg| then Missing else Apply(cfg[k := cfg[k].(vars := cfg[k].vars + sec.vars)], name, Old(k), post)
  {
    assert (["+"] + post)[1..] == post;
    assert Folded("!")[0] == '!' && Folded("+")[0] == '+';
  }

  /** Any variable line, with any blanks: what stands before the first equal sign and what stands
      behind it, or behind the greater sign that follows it, without the blanks around. */
  lemma AnyVariable(s: State, left: string, right: string)
    requires Good(s) && s.cur >= 0 && '=' !in left && (left == "" || (left[0] != '[' && left[0] != '#'))
    ensures Process(s, left + "=>" + right) == Ok(AddVar(s, Var(Strip(left), Strip(right), true)))
    ensures (right == "" || right[0] != '>') ==>
      Process(s, left + "=" + right) == Ok(AddVar(s, Var(Strip(left), Strip(right), false)))
  {
    hide Process, Strip, AddVar;
    SignAt(left, "=>", right);
    CutAt(s, left, "=>" + right);
    SignAt(left, "=", right);
    CutAt(s, left, "=" + right);
  }

  lemma SignAt(left: string, sign: string, right: string)
    requires sign == "=" || sign == "=>"
    ensures left + sign + right == left + (sign + right)
    ensures (sign + right)[0] == '=' && (sign + right)[|sign|..] == right
    ensures sign == "=>" ==> (sign + right)[1] == '>'
    ensures sign == "=" ==> |sign + right| == 1 + |right| && (right != "" ==> (sign + right)[1] == right[0])
  {
  }

  /** `rest` is the line from its equal sign on. */
  lemma CutAt(s: State, left: string, rest: string)
    requires Good(s) && s.cur >= 0 && '=' !in left && (left == "" || (left[0] != '[' && left[0] != '#'))
    requires rest != "" && rest[0] == '='
    ensures var arrow := |rest| > 1 && rest[1] == '>';
      Process(s, left + rest) == Ok(AddVar(s, Var(Strip(left), Strip(rest[if arrow then 2 else 1..]), arrow)))
  {
    hide Strip, Header, AddVar;
    var line, arrow := left + rest, |rest| > 1 && rest[1] == '>';
    IndexIs(line, '=', |left|);
    assert line[..|left|] == left && line[|left|..] == rest;
    assert line[0] == if left == "" then '=' else left[0];
    assert line[if arrow then |left| + 2 else |left| + 1..] == rest[if arrow then 2 else 1..];
  }

  /** The lines that are no header and no variable: a directive and a line without an equal sign
      change nothing, but nothing except headers and directives may stand before the first
      section; and a header must have its brackets closed. */
  lemma OtherLines(s: State, line: string)
    requires Good(s) && line != ""
    ensures line[0] == '#' ==> Process(s, line) == Ok(s)
    ensures line[0] != '#' && line[0] != '[' && s.cur < 0 ==> Process(s, line) == Failed
    ensures line[0] != '#' && line[0] != '[' && s.cur >= 0 && '=' !in line ==> Process(s, line) == Ok(s)
    ensures line[0] == '[' && ']' !in line ==> Process(s, line) == Failed
  {
    if line[0] == '[' && ']' !in line {
      IndexIs(line[1..], ']', |line| - 1);
    }
    if '=' !in line {
      IndexIs(line, '=', |line|);
    }
  }

  lemma UnclosedOptions(s: State, name: string, opts: string)
    requires Good(s) && ']' !in name && ')' !in opts
    ensures Process(s, "[" + name + "](" + opts) == Failed
  {
    hide HeaderOf;
    var line, tail := "[" + name + "](" + opts, "(" + opts;
    assert line[0] == '[' && line[1..] == name + "]" + tail;
    HeaderSplits(name, tail, line[1..]);
    IndexIs(tail, ')', |tail|);
  }

  /** A chunk has at most 8191 characters and a newline at most as its last one; one that is not
      the last of the file has one or the other. */
  ghost predicate ChunkOk(c: string, last: bool) {
    && 0 < |c| < LINE_SIZE && (forall j :: 0 <= j < |c| - 1 ==> c[j] != '\n')
    && (!last && |c| < LINE_SIZE - 1 ==> c[|c| - 1] == '\n')
  }

  lemma HeadChunk(text: string)
    requires text != ""
    ensures ChunkOk(text[..ChunkSize(text)], ChunkSize(text) == |text|)
  {
  }

  /** The chunks that are read are the lines of the file, each with its newline, and a line of
      8191 characters or more in pieces of that length. */
  lemma {:induction false} ChunksAre(text: string)
    ensures Joined(Chunks(text)) == text
    ensures forall i :: 0 <= i < |Chunks(text)| ==> ChunkOk(Chunks(text)[i], i == |Chunks(text)| - 1)
    decreases |text|
  {
    hide ChunkSize, ChunkOk;
    if text != "" {
      var n := ChunkSize(text);
      var head, rest := text[..n], text[n..];
      HeadChunk(text);
      ChunksAre(rest);
      assert head + rest == text && Chunks(text) == [head] + Chunks(rest);
      assert Chunks(text)[1..] == Chunks(rest) && (rest == "" <==> n == |text|) && (rest == "" <==> Chunks(rest) == []);
    }
  }

  function Joined(chunks: seq<string>): string {
    if chunks == [] then "" else chunks[0] + Joined(chunks[1..])
  }

  /** The signs of the format. */
  lemma FormatIs()
    ensures VarLine(Var("b", "c", false)) == "b = c" && VarLine(Var("b", "c", true)) == "b => c"
    ensures HeaderLine(Sec("a", false, [])) == "[a]" && HeaderLine(Sec("a", true, [])) == "[a](!)"
  {
  }

  /** A copied variable keeps its kind exactly if it is of the plain kind. */
  lemma ClonedKeeps(vars: seq<Var>)
    ensures Cloned(vars) == vars <==> forall i :: 0 <= i < |vars| ==> !vars[i].arrow
  {
    if i: int :| 0 <= i < |vars| && vars[i].arrow {
      assert Cloned(vars)[i] != vars[i];
    } else {
      assert forall i :: 0 <= i < |vars| ==> Cloned(vars)[i] == vars[i];
    }
  }

  /** The loop of inherit_section: the variables of the section so far, and the place in the list
      that is walked, which is the section's own when it inherits from itself. */
  datatype Walk = Walk(vars: seq<Var>, i: nat)

  function Walked(w: Walk, base: seq<Var>, self: bool): seq<Var> {
    if self then w.vars else base
  }

  predicate Walking(w: Walk, base: seq<Var>, self: bool) {
    w.i < |Walked(w, base, self)|
  }

  /** One turn: a copy of the variable at the place is appended. */
  function WalkTurn(w: Walk, base: seq<Var>, self: bool): Walk
    requires Walking(w, base, self)
  {
    Walk(w.vars + [Walked(w, base, self)[w.i].(arrow := false)], w.i + 1)
  }

  function WalkFor(w: Walk, base: seq<Var>, self: bool, turns: nat): Walk
    decreases turns
  {
    if turns == 0 || !Walking(w, base, self) then w else WalkFor(WalkTurn(w, base, self), base, self, turns - 1)
  }

  lemma {:induction false} WalkCopies(w: Walk, base: seq<Var>)
    requires w.i <= |base|
    ensures WalkFor(w, base, false, |base| - w.i) == Walk(w.vars + Cloned(base[w.i..]), |base|)
    decreases |base| - w.i
  {
    if w.i < |base| {
      var copy := base[w.i].(arrow := false);
      WalkCopies(WalkTurn(w, base, false), base);
      assert Cloned(base[w.i..]) == [copy] + Cloned(base[w.i + 1..]);
      assert w.vars + [copy] + Cloned(base[w.i + 1..]) == w.vars + ([copy] + Cloned(base[w.i + 1..]));
    }
  }

  /** A section that walks its own variables stays as far from their end as it was. */
  lemma {:induction false} OwnWalkGoesOn(w: Walk, base: seq<Var>, turns: nat)
    requires w.i < |w.vars|
    ensures Walking(WalkFor(w, base, true, turns), base, true)
    decreases turns
  {
    if turns > 0 {
      OwnWalkGoesOn(WalkTurn(w, base, true), base, turns - 1);
    }
  }

  ghost predicate WalksOn(w: Walk, base: seq<Var>, self: bool) {
    forall turns: nat :: Walking(WalkFor(w, base, self, turns), base, self)
  }

  lemma WalkEnds(w: Walk, base: seq<Var>, self: bool, turns: nat)
    requires !Walking(WalkFor(w, base, self, turns), base, self)
    ensures !WalksOn(w, base, self)
  {
  }

  /** The walk of inherit_section goes on for ever exactly when a section that has variables is
      added to and names itself; that is when the reader is said to hang. In all other cases
      the walk ends after the variables of the base, with the section the reader says. */
  lemma SelfInheritance(cfg: seq<Sec>, t: Target, base: nat)
    requires Fits(cfg, t) && base < |cfg|
    ensures var w, vars, self := Walk(SecOf(cfg, t).vars, 0), cfg[base].vars, t == Old(base);
      var r := Inherit(cfg, t, base);
      && (WalksOn(w, vars, self) <==> self && vars != [])
      && (WalksOn(w, vars, self) <==> r == Endless)
      && (r.Applied? ==> WalkFor(w, vars, self, |vars|) == Walk(SecOf(r.cfg, r.target).vars, |vars|))
  {
    var w, vars, self := Walk(SecOf(cfg, t).vars, 0), cfg[base].vars, t == Old(base);
    if self && vars != [] {
      forall turns: nat
        ensures Walking(WalkFor(w, vars, self, turns), vars, self)
      {
        OwnWalkGoesOn(w, vars, turns);
      }
    } else {
      WalkCopies(w, vars);
      assert vars[0..] == vars;
      assert self ==> WalkFor(w, vars, self, 0) == w && vars + Cloned(vars) == vars;
      WalkEnds(w, vars, self, |vars|);
    }
  }
}
