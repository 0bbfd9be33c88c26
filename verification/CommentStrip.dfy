/** Comment stripping in config.c: nested ;-- and --; comments that span lines, removed from the
    line buffer in place by cutting with NUL and moving what follows over the cut. */
module CommentStrip {

  import opened Common
  import opened Strings

  const MAX_NEXT_COMMENT := 128

  // ---------- the scanning loop, on values ----------

  /** process_buf: NULL; the text before new_buf goes on into what follows; or it has been
      cut off with a NUL. */
  datatype Mode = Absent | Open | Cut
  /** The comment depth afterwards and the string at process_buf, if there is one. `Outside` is a
      write in front of the array nest, after which nothing can be said. */
  datatype Outcome = Done(depth: int, text: Option<string>) | Hangs | Outside

  /** strchr for the comment character; the length if there is none. */
  function Meta(s: string): (p: nat)
    ensures p <= |s| && (p < |s| ==> s[p] == ';')
    ensures forall i :: 0 <= i < p ==> s[i] != ';'
  {
    if s == "" || s[0] == ';' then 0 else 1 + Meta(s[1..])
  }

  function At(s: string, i: nat): char {
    if i < |s| then s[i] else NUL
  }

  predicate Escaped(s: string, p: nat) {
    0 < p <= |s| && s[p - 1] == '\\'
  }

  predicate StartsAt(s: string, p: nat) {
    p + 2 < |s| && s[p] == ';' && s[p + 1] == '-' && s[p + 2] == '-' && At(s, p + 3) != '-'
  }

  predicate EndsAt(s: string, p: nat) {
    2 <= p <= |s| && s[p - 1] == '-' && s[p - 2] == '-'
  }

  function Passed(kept: string, s: string, mode: Mode): string {
    if mode == Open then kept + s else kept
  }

  function TextOf(kept: string, s: string, mode: Mode): Option<string> {
    if mode == Absent then None else Some(Passed(kept, s, mode))
  }

  /** The loop from new_buf on: `rest` is the string there, `kept` what process_buf holds in
      front of it or up to the cut. A comment start at the depth limit is logged and leaves
      new_buf where it is, so the loop finds it again for ever; one below depth 0 writes its line
      number to nest[depth]. */
  function Scan(kept: string, rest: string, depth: int, mode: Mode): Outcome
    requires mode == Open ==> depth <= 0
    decreases |rest|
  {
    var p := Meta(rest);
    if p == |rest| then Done(depth, TextOf(kept, rest, mode))
    else if Escaped(rest, p) then Scan(Passed(kept, rest[..p + 1], mode), rest[p + 1..], depth, mode)
    else if StartsAt(rest, p) then
      if depth >= MAX_NEXT_COMMENT then Hangs
      else if depth < 0 then Outside
      else Scan(Passed(kept, rest[..p], mode), rest[p + 3..], depth + 1, if mode == Open then Cut else mode)
    else if EndsAt(rest, p) then
      if depth == 1 then Scan(kept, rest[p + 1..], 0, Open)
      else Scan(Passed(kept, rest[..p + 1], mode), rest[p + 1..], depth - 1, mode)
    else if depth == 0 then Done(0, TextOf(kept, rest[..p], mode))
    else Scan(Passed(kept, rest[..p + 1], mode), rest[p + 1..], depth, mode)
  }

  /** One line of the file, entered at a comment depth. */
  function ScanLine(line: string, depth: int): Outcome {
    Scan("", line, depth, if depth == 0 then Open else Absent)
  }

  // ---------- the loop, turn by turn ----------

  /** What the loop works on: the scanned string at new_buf and what process_buf holds. */
  datatype State = State(kept: string, rest: string, depth: int, mode: Mode)

  predicate InLoop(s: State) {
    Meta(s.rest) < |s.rest|
  }

  predicate StateOk(s: State) {
    (s.mode == Open ==> s.depth <= 0) && (s.mode == Absent ==> s.kept == "")
  }

  predicate AtStart(s: State) {
    InLoop(s) && !Escaped(s.rest, Meta(s.rest)) && StartsAt(s.rest, Meta(s.rest))
  }

  /** A comment start, found with the depth at the limit. */
  predicate AtLimit(s: State) {
    AtStart(s) && s.depth >= MAX_NEXT_COMMENT
  }

  /** A comment start below depth 0: its line number does not belong into nest. */
  predicate BelowNest(s: State) {
    AtStart(s) && s.depth < 0
  }

  predicate Runs(s: State) {
    InLoop(s) && !BelowNest(s)
  }

  /** One turn, at the next semicolon. At the limit nothing moves. */
  function Turn(s: State): (s': State)
    requires Runs(s)
  {
    var rest, p := s.rest, Meta(s.rest);
    var past := Passed(s.kept, rest[..p + 1], s.mode);
    if Escaped(rest, p) then s.(kept := past, rest := rest[p + 1..])
    else if StartsAt(rest, p) then
      if s.depth >= MAX_NEXT_COMMENT then s
      else State(Passed(s.kept, rest[..p], s.mode), rest[p + 3..], s.depth + 1, if s.mode == Open then Cut else s.mode)
    else if EndsAt(rest, p) then
      if s.depth == 1 then State(s.kept, rest[p + 1..], 0, Open)
      else State(past, rest[p + 1..], s.depth - 1, s.mode)
    else if s.depth == 0 then s.(kept := Passed(s.kept, rest[..p], s.mode), rest := "")
    else s.(kept := past, rest := rest[p + 1..])
  }

  /** The array nest after that turn. */
  function NestTurn(s: State, nest: seq<int>, lineno: int): seq<int>
    requires Runs(s) && |nest| == MAX_NEXT_COMMENT
  {
    if AtStart(s) && s.depth < MAX_NEXT_COMMENT then nest[s.depth := lineno] else nest
  }

  function TurnsFrom(s: State, n: nat): State
    decreases n
  {
    if n == 0 || !Runs(s) then s else TurnsFrom(Turn(s), n - 1)
  }

  function ScanOf(s: State): Outcome
    requires StateOk(s)
  {
    Scan(s.kept, s.rest, s.depth, s.mode)
  }

  /** One turn keeps what the scan will give, and shortens the rest unless it is stuck. */
  lemma TurnKeepsScan(s: State)
    requires StateOk(s) && Runs(s)
    ensures StateOk(Turn(s)) && ScanOf(Turn(s)) == ScanOf(s)
    ensures AtLimit(s) ==> Turn(s) == s && ScanOf(s) == Hangs
    ensures !AtLimit(s) ==> |Turn(s).rest| < |s.rest|
  {
    hide Scan, Escaped, EndsAt;
    ScanUnfolds(s.kept, s.rest, s.depth, s.mode, Meta(s.rest), ScanOf(s));
  }

  lemma BelowNestLeaves(s: State)
    requires StateOk(s) && BelowNest(s)
    ensures ScanOf(s) == Outside
  {
    hide Scan, Escaped, EndsAt;
    ScanUnfolds(s.kept, s.rest, s.depth, s.mode, Meta(s.rest), ScanOf(s));
  }

  /** At the limit the loop finds the same semicolon again after any number of turns, with the
      string, the depth and the kept text as they were. */
  lemma {:induction false} LimitHangs(s: State, n: nat)
    requires AtLimit(s)
    ensures TurnsFrom(s, n) == s && Runs(TurnsFrom(s, n))
    decreases n
  {
    if n > 0 {
      LimitHangs(s, n - 1);
    }
  }

  lemma {:induction false} HangsForEver(s: State, n: nat)
    requires StateOk(s) && ScanOf(s) == Hangs
    ensures Runs(TurnsFrom(s, n))
    decreases n
  {
    hide Escaped, StartsAt, EndsAt, Turn, AtStart, Scan;
    if InLoop(s) && BelowNest(s) {
      BelowNestLeaves(s);
    } else if !InLoop(s) {
      ScanStops(s);
    } else if n > 0 {
      TurnKeepsScan(s);
      HangsForEver(Turn(s), n - 1);
    }
  }

  /** What the scan says of a loop that has come to an end. */
  function Final(e: State): Outcome
  {
    if InLoop(e) then Outside else Done(e.depth, TextOf(e.kept, e.rest, e.mode))
  }

  lemma {:induction false} EndsInTurns(s: State) returns (n: nat)
    requires StateOk(s) && ScanOf(s) != Hangs
    ensures n <= |s.rest| && !Runs(TurnsFrom(s, n)) && ScanOf(s) == Final(TurnsFrom(s, n))
    decreases |s.rest|
  {
    hide Escaped, StartsAt, EndsAt, Turn, AtStart, Scan;
    n := 0;
    if Runs(s) {
      TurnKeepsScan(s);
      n := EndsInTurns(Turn(s));
      n := n + 1;
    } else if InLoop(s) {
      BelowNestLeaves(s);
    } else {
      ScanStops(s);
    }
  }

  /** The scanning function is the meaning of the loop: where it says that the scan hangs, the
      loop is still running after any number of turns; elsewhere the loop comes, within as many
      turns as there are characters left, to its end with that depth and that text, or to a
      write outside nest. */
  lemma ScanIsLoop(s: State)
    requires StateOk(s)
    ensures ScanOf(s) == Hangs <==> forall n: nat :: Runs(TurnsFrom(s, n))
    ensures ScanOf(s) != Hangs ==>
      exists n: nat :: n <= |s.rest| && !Runs(TurnsFrom(s, n)) && ScanOf(s) == Final(TurnsFrom(s, n))
  {
    hide Scan;
    if ScanOf(s) == Hangs {
      forall n: nat
        ensures Runs(TurnsFrom(s, n))
      {
        HangsForEver(s, n);
      }
    } else {
      var n := EndsInTurns(s);
      assert !Runs(TurnsFrom(s, n));
    }
  }

  // ---------- what the loop is for ----------

  datatype Filtered = Filtered(depth: int, text: string) | Stuck | Beyond

  function Prepend(s: string, f: Filtered): Filtered {
    if f.Filtered? then Filtered(f.depth, s + f.text) else f
  }

  function Shown(s: string, showing: bool): string {
    if showing then s else ""
  }

  /** The same text read once, character by character, with nothing moved: `before` is what
      was read since the last marker or lone semicolon. */
  function Filter(before: string, rest: string, depth: int, showing: bool): Filtered
    decreases |rest|
  {
    if rest == "" then Filtered(depth, "")
    else if rest[0] != ';' then
      Prepend(Shown(rest[..1], showing), Filter(before + rest[..1], rest[1..], depth, showing))
    else if Escaped(before, |before|) then
      Prepend(Shown(";", showing), Filter("", rest[1..], depth, showing))
    else if StartsAt(rest, 0) then
      if depth >= MAX_NEXT_COMMENT then Stuck
      else if depth < 0 then Beyond
      else Filter("", rest[3..], depth + 1, false)
    else if EndsAt(before, |before|) then
      Prepend(Shown(";", showing), Filter("", rest[1..], depth - 1, showing || depth == 1))
    else if depth == 0 then Filtered(0, "")
    else Prepend(Shown(";", showing), Filter("", rest[1..], depth, showing))
  }

  lemma PrependTwice(a: string, b: string, f: Filtered)
    ensures Prepend(a, Prepend(b, f)) == Prepend(a + b, f)
  {
    if f.Filtered? {
      assert a + (b + f.text) == (a + b) + f.text;
    }
  }

  lemma PrependEnd(a: string, depth: int)
    ensures Prepend(a, Filtered(depth, "")) == Filtered(depth, a)
    ensures Prepend(a, Stuck) == Stuck && Prepend(a, Beyond) == Beyond
  {
  }

  /** Up to the next semicolon every character is copied. */
  lemma {:induction false} FilterPlain(before: string, rest: string, depth: int, showing: bool, p: nat)
    requires p <= |rest| && forall i :: 0 <= i < p ==> rest[i] != ';'
    ensures Filter(before, rest, depth, showing)
         == Prepend(Shown(rest[..p], showing), Filter(before + rest[..p], rest[p..], depth, showing))
    decreases p
  {
    if p == 0 {
      assert before + rest[..0] == before && rest[0..] == rest;
      assert forall f: Filtered :: f.Filtered? ==> "" + f.text == f.text;
    } else {
      var more, tail := before + rest[..1], rest[1..];
      FilterPlain(more, tail, depth, showing, p - 1);
      assert tail[..p - 1] == rest[1..p] && tail[p - 1..] == rest[p..];
      assert more + rest[1..p] == before + rest[..p] && rest[..1] + rest[1..p] == rest[..p];
      PrependTwice(Shown(rest[..1], showing), Shown(rest[1..p], showing),
                   Filter(before + rest[..p], rest[p..], depth, showing));
    }
  }

  /** Does the outcome of the loop say what the filter says? A line that never leaves a
      comment has no string at all where the filter has the empty text. */
  ghost predicate Agrees(o: Outcome, f: Filtered, kept: string, mode: Mode) {
    match o
    case Hangs => f == Stuck
    case Outside => f == Beyond
    case Done(depth, None) => mode == Absent && f == Filtered(depth, "")
    case Done(depth, Some(text)) => f.Filtered? && f.depth == depth && text == kept + f.text
  }

  /** The markers look back only as far as new_buf. */
  lemma LookBack(rest: string, p: nat)
    requires p < |rest|
    ensures Escaped(rest, p) == Escaped(rest[..p], p) && EndsAt(rest, p) == EndsAt(rest[..p], p)
    ensures StartsAt(rest, p) == StartsAt(rest[p..], 0)
  {
  }

  /** The pass over the rest of the line, at the next semicolon. */
  lemma FilterAtMeta(rest: string, depth: int, showing: bool, p: nat)
    requires p == Meta(rest) < |rest|
    ensures var shown := Shown(rest[..p], showing); var shownMeta := Shown(rest[..p + 1], showing);
      Filter("", rest, depth, showing) ==
      if Escaped(rest, p) then Prepend(shownMeta, Filter("", rest[p + 1..], depth, showing))
      else if StartsAt(rest, p) then
        if depth >= MAX_NEXT_COMMENT then Stuck
        else if depth < 0 then Beyond
        else Prepend(shown, Filter("", rest[p + 3..], depth + 1, false))
      else if EndsAt(rest, p) then Prepend(shownMeta, Filter("", rest[p + 1..], depth - 1, showing || depth == 1))
      else if depth == 0 then Filtered(0, shown)
      else Prepend(shownMeta, Filter("", rest[p + 1..], depth, showing))
  {
    hide Prepend, Escaped, EndsAt;
    FilterPlain("", rest, depth, showing, p);
    LookBack(rest, p);
    var tail, shown := rest[p..], Shown(rest[..p], showing);
    assert "" + rest[..p] == rest[..p] && |rest[..p]| == p && tail[0] == ';';
    assert tail[1..] == rest[p + 1..];
    assert rest[..p] + ";" == rest[..p + 1];
    if Escaped(rest, p) {
      PrependTwice(shown, Shown(";", showing), Filter("", rest[p + 1..], depth, showing));
    } else if StartsAt(rest, p) {
      assert tail[3..] == rest[p + 3..];
      PrependEnd(shown, 0);
    } else if EndsAt(rest, p) {
      PrependTwice(shown, Shown(";", showing), Filter("", rest[p + 1..], depth - 1, showing || depth == 1));
    } else if depth == 0 {
      assert Filter(rest[..p], tail, depth, showing) == Filtered(0, "");
      PrependEnd(shown, 0);
    } else {
      assert Filter(rest[..p], tail, depth, showing) ==
        Prepend(Shown(";", showing), Filter("", tail[1..], depth, showing));
      PrependTwice(shown, Shown(";", showing), Filter("", rest[p + 1..], depth, showing));
      assert shown + Shown(";", showing) == Shown(rest[..p + 1], showing);
      assert Filter("", rest, depth, showing) ==
        Prepend(Shown(rest[..p + 1], showing), Filter("", rest[p + 1..], depth, showing));
    }
  }

  lemma AgreesPrepend(o: Outcome, f: Filtered, kept: string, s: string, mode: Mode, next: Mode)
    requires next == Absent ==> mode == Absent && s == ""
    requires Agrees(o, f, kept + s, next)
    ensures Agrees(o, Prepend(s, f), kept, mode)
  {
    if f.Filtered? {
      assert kept + (s + f.text) == (kept + s) + f.text;
    }
  }

  /** The scanning function at the next semicolon. */
  lemma ScanUnfolds(kept: string, rest: string, depth: int, mode: Mode, q: nat, o: Outcome)
    requires (mode == Open ==> depth <= 0) && q == Meta(rest) < |rest| && o == Scan(kept, rest, depth, mode)
    ensures StartsAt(rest, q) ==> q + 3 <= |rest|
    ensures var past := Passed(kept, rest[..q + 1], mode);
      if Escaped(rest, q) then o == Scan(past, rest[q + 1..], depth, mode)
      else if StartsAt(rest, q) then
        if depth >= MAX_NEXT_COMMENT then o == Hangs
        else if depth < 0 then o == Outside
        else o == Scan(Passed(kept, rest[..q], mode), rest[q + 3..], depth + 1, if mode == Open then Cut else mode)
      else if EndsAt(rest, q) then
        if depth == 1 then o == Scan(kept, rest[q + 1..], 0, Open) else o == Scan(past, rest[q + 1..], depth - 1, mode)
      else if depth == 0 then
        o == Done(0, TextOf(kept, rest[..q], mode)) == Scan(Passed(kept, rest[..q], mode), "", 0, mode)
      else o == Scan(past, rest[q + 1..], depth, mode)
  {
    hide Escaped, EndsAt;
    assert Passed(Passed(kept, rest[..q], mode), "", mode) == Passed(kept, rest[..q], mode);
  }

  lemma LastAgrees(kept: string, s: string, depth: int, mode: Mode)
    requires mode == Absent ==> kept == ""
    ensures Agrees(Done(depth, TextOf(kept, s, mode)), Filtered(depth, Shown(s, mode == Open)), kept, mode)
    ensures Prepend(Shown(s, mode == Open), Filtered(depth, "")) == Filtered(depth, Shown(s, mode == Open))
  {
  }

  lemma NoMeta(kept: string, rest: string, depth: int, mode: Mode)
    requires (mode == Open ==> depth <= 0) && (mode == Absent ==> kept == "") && Meta(rest) == |rest|
    ensures Agrees(Scan(kept, rest, depth, mode), Filter("", rest, depth, mode == Open), kept, mode)
  {
    FilterPlain("", rest, depth, mode == Open, |rest|);
    assert rest[..|rest|] == rest && rest[|rest|..] == "";
    LastAgrees(kept, rest, depth, mode);
  }

  lemma NoResultAgrees(kept: string, mode: Mode)
    ensures Agrees(Hangs, Stuck, kept, mode) && Agrees(Outside, Beyond, kept, mode)
  {
  }

  /** The loop leaves exactly the text that a single pass shows; it hangs exactly when the pass
      meets a comment start at the depth limit, and leaves nest exactly when it meets one below
      depth 0. */
  lemma {:induction false} ScanIsFilter(kept: string, rest: string, depth: int, mode: Mode)
    requires (mode == Open ==> depth <= 0) && (mode == Absent ==> kept == "")
    ensures Agrees(Scan(kept, rest, depth, mode), Filter("", rest, depth, mode == Open), kept, mode)
    decreases |rest|
  {
    hide Agrees, Escaped, EndsAt, StartsAt, Prepend, Filter, Scan;
    var p := Meta(rest);
    if p == |rest| {
      NoMeta(kept, rest, depth, mode);
    } else {
      var showing := mode == Open;
      FilterAtMeta(rest, depth, showing, p);
      ScanUnfolds(kept, rest, depth, mode, p, Scan(kept, rest, depth, mode));
      var shown, shownMeta := Shown(rest[..p], showing), Shown(rest[..p + 1], showing);
      assert Passed(kept, rest[..p], mode) == kept + shown && Passed(kept, rest[..p + 1], mode) == kept + shownMeta;
      if Escaped(rest, p) {
        ScanIsFilter(kept + shownMeta, rest[p + 1..], depth, mode);
        AgreesPrepend(Scan(kept, rest, depth, mode), Filter("", rest[p + 1..], depth, showing), kept, shownMeta, mode,
          mode);
      } else if StartsAt(rest, p) {
        if 0 <= depth < MAX_NEXT_COMMENT {
          var next := if mode == Open then Cut else mode;
          ScanIsFilter(kept + shown, rest[p + 3..], depth + 1, next);
          AgreesPrepend(Scan(kept, rest, depth, mode), Filter("", rest[p + 3..], depth + 1, false), kept, shown, mode,
            next);
        } else {
          NoResultAgrees(kept, mode);
        }
      } else if EndsAt(rest, p) {
        var next := if depth == 1 then Open else mode;
        ScanIsFilter(kept + shownMeta, rest[p + 1..], depth - 1, next);
        AgreesPrepend(Scan(kept, rest, depth, mode), Filter("", rest[p + 1..], depth - 1, next == Open), kept,
          shownMeta, mode, next);
      } else if depth == 0 {
        LastAgrees(kept, rest[..p], 0, mode);
      } else {
        ScanIsFilter(kept + shownMeta, rest[p + 1..], depth, mode);
        AgreesPrepend(Scan(kept, rest, depth, mode), Filter("", rest[p + 1..], depth, showing), kept, shownMeta, mode,
          mode);
      }
    }
  }

  // ---------- nesting depth, and lines ----------

  /** Every comment start that is met lies at a depth from 0 up to the limit: those whose line
      number has a place in nest. */
  predicate StartsFit(before: string, rest: string, depth: int)
    decreases |rest|
  {
    if rest == "" then true
    else if rest[0] != ';' then StartsFit(before + rest[..1], rest[1..], depth)
    else if Escaped(before, |before|) then StartsFit("", rest[1..], depth)
    else if StartsAt(rest, 0) then 0 <= depth < MAX_NEXT_COMMENT && StartsFit("", rest[3..], depth + 1)
    else if EndsAt(before, |before|) then StartsFit("", rest[1..], depth - 1)
    else depth == 0 || StartsFit("", rest[1..], depth)
  }

  lemma {:induction false} FilterFits(before: string, rest: string, depth: int, showing: bool)
    ensures Filter(before, rest, depth, showing).Filtered? <==> StartsFit(before, rest, depth)
    decreases |rest|
  {
    hide Escaped, EndsAt;
    if rest == "" {
    } else if rest[0] != ';' {
      FilterFits(before + rest[..1], rest[1..], depth, showing);
    } else if Escaped(before, |before|) {
      FilterFits("", rest[1..], depth, showing);
    } else if StartsAt(rest, 0) {
      FilterFits("", rest[3..], depth + 1, false);
    } else if EndsAt(before, |before|) {
      FilterFits("", rest[1..], depth - 1, showing || depth == 1);
    } else {
      FilterFits("", rest[1..], depth, showing);
    }
  }

  /** The scan of a line comes to its end, inside nest, exactly if every start fits. */
  lemma ScanFits(line: string, depth: int)
    ensures ScanLine(line, depth).Done? <==> StartsFit("", line, depth)
  {
    var mode := if depth == 0 then Open else Absent;
    ScanIsFilter("", line, depth, mode);
    FilterFits("", line, depth, mode == Open);
  }

  /** A comment end where no comment is open. */
  predicate Strays(before: string, rest: string, depth: nat)
    decreases |rest|
  {
    if rest == "" then false
    else if rest[0] != ';' then Strays(before + rest[..1], rest[1..], depth)
    else if Escaped(before, |before|) then Strays("", rest[1..], depth)
    else if StartsAt(rest, 0) then depth < MAX_NEXT_COMMENT && Strays("", rest[3..], depth + 1)
    else if EndsAt(before, |before|) then depth == 0 || Strays("", rest[1..], depth - 1)
    else depth != 0 && Strays("", rest[1..], depth)
  }

  /** The intended meaning: text is shown exactly where the nesting depth is 0. */
  function Nested(before: string, rest: string, depth: nat): (f: Filtered)
    ensures f != Beyond && (f.Filtered? ==> f.depth >= 0)
    decreases |rest|
  {
    var shown := depth == 0;
    if rest == "" then Filtered(depth, "")
    else if rest[0] != ';' then Prepend(Shown(rest[..1], shown), Nested(before + rest[..1], rest[1..], depth))
    else if Escaped(before, |before|) then Prepend(Shown(";", shown), Nested("", rest[1..], depth))
    else if StartsAt(rest, 0) then if depth < MAX_NEXT_COMMENT then Nested("", rest[3..], depth + 1) else Stuck
    else if EndsAt(before, |before|) then
      if depth == 0 then Prepend(";", Nested("", rest[1..], depth)) else Nested("", rest[1..], depth - 1)
    else if depth == 0 then Filtered(0, "")
    else Nested("", rest[1..], depth)
  }

  /** Once below depth 0 the pass stays there, or meets a start. */
  ghost predicate IsBelow(f: Filtered) {
    f == Beyond || (f.Filtered? && f.depth < 0)
  }

  lemma {:induction false} BelowStays(before: string, rest: string, depth: int, showing: bool)
    requires depth < 0
    ensures IsBelow(Filter(before, rest, depth, showing))
    decreases |rest|
  {
    hide Escaped, EndsAt;
    if rest == "" {
    } else if rest[0] != ';' {
      BelowStays(before + rest[..1], rest[1..], depth, showing);
    } else if Escaped(before, |before|) {
      BelowStays("", rest[1..], depth, showing);
    } else if StartsAt(rest, 0) {
    } else if EndsAt(before, |before|) {
      BelowStays("", rest[1..], depth - 1, showing);
    } else {
      BelowStays("", rest[1..], depth, showing);
    }
  }

  lemma {:induction false} StraysBelow(before: string, rest: string, depth: nat, showing: bool)
    requires Strays(before, rest, depth)
    ensures IsBelow(Filter(before, rest, depth, showing))
    decreases |rest|
  {
    hide Escaped, EndsAt;
    if rest[0] != ';' {
      StraysBelow(before + rest[..1], rest[1..], depth, showing);
    } else if Escaped(before, |before|) {
      StraysBelow("", rest[1..], depth, showing);
    } else if StartsAt(rest, 0) {
      StraysBelow("", rest[3..], depth + 1, false);
    } else if EndsAt(before, |before|) {
      if depth == 0 {
        BelowStays("", rest[1..], -1, showing);
      } else {
        StraysBelow("", rest[1..], depth - 1, showing || depth == 1);
      }
    } else {
      StraysBelow("", rest[1..], depth, showing);
    }
  }

  lemma {:induction false} StraylessIsNested(before: string, rest: string, depth: nat)
    requires !Strays(before, rest, depth)
    ensures Filter(before, rest, depth, depth == 0) == Nested(before, rest, depth)
    decreases |rest|
  {
    hide Escaped, EndsAt;
    if rest == "" {
    } else if rest[0] != ';' {
      StraylessIsNested(before + rest[..1], rest[1..], depth);
    } else if Escaped(before, |before|) {
      StraylessIsNested("", rest[1..], depth);
    } else if StartsAt(rest, 0) {
      if depth < MAX_NEXT_COMMENT { StraylessIsNested("", rest[3..], depth + 1); }
    } else if EndsAt(before, |before|) {
      StraylessIsNested("", rest[1..], depth - 1);
      PrependNothing(Filter("", rest[1..], depth - 1, depth == 1));
    } else if depth != 0 {
      StraylessIsNested("", rest[1..], depth);
      PrependNothing(Filter("", rest[1..], depth, false));
    }
  }

  /** The pass shows text exactly at nesting depth 0, and comes out at the nesting depth, if and
      only if no comment end is met where no comment is open. */
  lemma FilterIsNested(before: string, rest: string, depth: nat)
    ensures Filter(before, rest, depth, depth == 0) == Nested(before, rest, depth) <==> !Strays(before, rest, depth)
  {
    if Strays(before, rest, depth) {
      StraysBelow(before, rest, depth, depth == 0);
    } else {
      StraylessIsNested(before, rest, depth);
    }
  }

  lemma PrependNothing(f: Filtered)
    ensures Prepend("", f) == f
  {
  }

  datatype Loaded = Loaded(depth: int, texts: seq<Option<string>>) | Never | Lost

  /** The lines of a file, one after the other; the depth is carried along. */
  function ScanLines(lines: seq<string>, depth: int): Loaded {
    if lines == [] then Loaded(depth, [])
    else match ScanLine(lines[0], depth)
         case Hangs => Never
         case Outside => Lost
         case Done(next, text) =>
           match ScanLines(lines[1..], next)
           case Loaded(last, texts) => Loaded(last, [text] + texts)
           case Never => Never
           case Lost => Lost
  }

  /** Every comment end closes a comment, on every line up to the first whose scan never ends. */
  predicate WellNested(lines: seq<string>, depth: nat) {
    lines == [] ||
    (!Strays("", lines[0], depth) &&
     (Nested("", lines[0], depth).Filtered? ==> WellNested(lines[1..], Nested("", lines[0], depth).depth)))
  }

  /** The intended meaning of the lines. */
  function NestedLines(lines: seq<string>, depth: nat): (r: Loaded)
    ensures r != Lost && (r.Loaded? ==> r.depth >= 0)
  {
    if lines == [] then Loaded(depth, [])
    else
      var f := Nested("", lines[0], depth);
      if f == Stuck then Never
      else
        match NestedLines(lines[1..], f.depth)
        case Loaded(last, texts) => Loaded(last, [Some(f.text)] + texts)
        case Never => Never
  }

  function TextOr(o: Option<string>): string {
    if o.Some? then o.value else ""
  }

  /** The same depth and the same text on every line, or no end to the scan. */
  ghost predicate SameLines(l: Loaded, m: Loaded) {
    if l.Loaded? && m.Loaded?
    then l.depth == m.depth && |l.texts| == |m.texts| && forall i :: 0 <= i < |l.texts| ==>
           TextOr(l.texts[i]) == TextOr(m.texts[i])
    else l == m
  }

  lemma SameCons(a: Option<string>, b: Option<string>, l: Loaded, m: Loaded)
    requires l.Loaded? && m.Loaded? && TextOr(a) == TextOr(b)
    ensures SameLines(Loaded(l.depth, [a] + l.texts), Loaded(m.depth, [b] + m.texts)) <==> SameLines(l, m)
  {
    var x, y := [a] + l.texts, [b] + m.texts;
    assert forall i :: 0 <= i < |l.texts| ==> x[i + 1] == l.texts[i];
    assert forall i :: 0 <= i < |m.texts| ==> y[i + 1] == m.texts[i];
  }

  lemma LineIsNested(line: string, depth: nat)
    ensures var o, f := ScanLine(line, depth), Nested("", line, depth);
      if Strays("", line, depth) then o == Outside || (o.Done? && o.depth < 0)
      else if f == Stuck then o == Hangs
      else o.Done? && o.depth == f.depth && TextOr(o.text) == f.text
  {
    ScanIsFilter("", line, depth, if depth == 0 then Open else Absent);
    if Strays("", line, depth) {
      StraysBelow("", line, depth, depth == 0);
    } else {
      StraylessIsNested("", line, depth);
    }
  }

  /** For every sequence of lines: the loop leaves on every line exactly the text outside
      comments, comes out at the nesting depth, and ends or does not end as the limit has it,
      if and only if no comment end strays. */
  lemma {:induction false} LinesAreNested(lines: seq<string>, depth: nat)
    ensures SameLines(ScanLines(lines, depth), NestedLines(lines, depth)) <==> WellNested(lines, depth)
  {
    hide ScanLine, Strays, Nested, SameLines;
    if lines != [] {
      var o, f := ScanLine(lines[0], depth), Nested("", lines[0], depth);
      LineIsNested(lines[0], depth);
      if Strays("", lines[0], depth) {
        if o.Done? { StrayEndHidesFile(lines[1..], o.depth); }
        DifferentEnds(ScanLines(lines, depth), NestedLines(lines, depth));
      } else if f == Stuck {
        SameNever();
      } else {
        var l, m := ScanLines(lines[1..], o.depth), NestedLines(lines[1..], f.depth);
        LinesAreNested(lines[1..], f.depth);
        if l.Loaded? && m.Loaded? {
          SameCons(o.text, Some(f.text), l, m);
        } else {
          SameEnds(l, m);
          SameEnds(ScanLines(lines, depth), NestedLines(lines, depth));
        }
      }
    } else {
      SameNone(depth);
    }
  }

  lemma DifferentEnds(l: Loaded, m: Loaded)
    requires l == Lost || (l.Loaded? && l.depth < 0)
    requires m != Lost && (m.Loaded? ==> m.depth >= 0)
    ensures !SameLines(l, m)
  {
  }

  lemma SameNever()
    ensures SameLines(Never, Never)
  {
  }

  lemma SameNone(depth: int)
    ensures SameLines(Loaded(depth, []), Loaded(depth, []))
  {
  }

  lemma SameEnds(l: Loaded, m: Loaded)
    requires !l.Loaded? || !m.Loaded?
    ensures SameLines(l, m) <==> l == m
  {
  }

  // ---------- lines written with their comments ----------

  /** A line as its author sees it: texts, and comments with texts and comments inside. */
  datatype Piece = Text(s: string) | Comment(body: seq<Piece>)

  function Rendered(ps: seq<Piece>): string {
    if ps == [] then ""
    else
      (match ps[0]
       case Text(s) => s
       case Comment(body) => ";--" + Rendered(body) + "--;") + Rendered(ps[1..])
  }

  /** The texts outside all comments. */
  function Outer(ps: seq<Piece>): string {
    if ps == [] then "" else (if ps[0].Text? then ps[0].s else "") + Outer(ps[1..])
  }

  /** How deep the comments are nested. */
  function Depth(ps: seq<Piece>): nat {
    if ps == [] then 0
    else
      var d := if ps[0].Text? then 0 else 1 + Depth(ps[0].body);
      if d > Depth(ps[1..]) then d else Depth(ps[1..])
  }

  predicate NoDash(s: string) {
    s == "" || s[0] != '-'
  }

  /** Texts without semicolons that do not end in a backslash; no dash right behind the marks that
      open and close a comment; and no comment without a body. `rest` follows the pieces. */
  predicate Clean(ps: seq<Piece>, rest: string) {
    ps == [] ||
    (Clean(ps[1..], rest) &&
     match ps[0]
     case Text(s) => ';' !in s && (s == "" || s[|s| - 1] != '\\')
     case Comment(body) =>
       && Clean(body, "--;") && Rendered(body) != "" && NoDash(Rendered(body)) && NoDash(Rendered(ps[1..]) + rest))
  }

  /** What has been read since the last mark when the pieces have been. */
  function Since(before: string, ps: seq<Piece>): string
    decreases |ps|
  {
    if ps == [] then before else Since(if ps[0].Text? then before + ps[0].s else "", ps[1..])
  }

  lemma FilterText(before: string, s: string, rest: string, depth: int, showing: bool)
    requires ';' !in s
    ensures Filter(before, s + rest, depth, showing) ==
      Prepend(Shown(s, showing), Filter(before + s, rest, depth, showing))
  {
    FilterPlain(before, s + rest, depth, showing, |s|);
    assert (s + rest)[..|s|] == s && (s + rest)[|s|..] == rest;
  }

  /** The marks around a comment's body. */
  lemma FilterOpens(before: string, rest: string, depth: nat, showing: bool)
    requires !Escaped(before, |before|) && depth < MAX_NEXT_COMMENT && rest != "" && rest[0] != '-'
    ensures Filter(before, ";--" + rest, depth, showing) == Filter("", rest, depth + 1, false)
  {
    var s := ";--" + rest;
    assert s[0] == ';' && s[1] == '-' && s[2] == '-' && s[3] == rest[0] && s[3..] == rest;
    assert StartsAt(s, 0);
  }

  lemma FilterCloses(before: string, rest: string, depth: nat)
    requires NoDash(rest)
    ensures Filter(before, "--;" + rest, depth + 1, false) == Filter("", rest, depth, depth == 0)
  {
    var b := before + "--";
    assert "--;" + rest == "--" + (";" + rest);
    FilterText(before, "--", ";" + rest, depth + 1, false);
    assert (";" + rest)[1..] == rest && EndsAt(b, |b|) && !Escaped(b, |b|) && !StartsAt(";" + rest, 0);
    PrependNothing(Filter("", rest, depth, depth == 0));
  }

  lemma Regroup(a: string, b: string, c: string)
    ensures a + b + c == a + (b + c)
  {
  }

  lemma RenderedHead(ps: seq<Piece>, rest: string)
    requires ps != []
    ensures var more := Rendered(ps[1..]) + rest;
      Rendered(ps) + rest == match ps[0]
                             case Text(s) => s + more
                             case Comment(body) => ";--" + (Rendered(body) + ("--;" + more))
  {
    var tail := Rendered(ps[1..]);
    match ps[0] {
      case Text(s) => Regroup(s, tail, rest);
      case Comment(body) =>
        var b := Rendered(body);
        Regroup(";--" + b + "--;", tail, rest);
        Regroup(";--" + b, "--;", tail + rest);
        Regroup(";--", b, "--;" + (tail + rest));
    }
  }

  /** A comment, once its body has been followed. */
  lemma FilterComment(before: string, body: seq<Piece>, more: string, depth: nat)
    requires !Escaped(before, |before|) && depth < MAX_NEXT_COMMENT
    requires Rendered(body) != "" && NoDash(Rendered(body)) && NoDash(more)
    requires Filter("", Rendered(body) + ("--;" + more), depth + 1, false) ==
      Prepend(Shown(Outer(body), false), Filter(Since("", body), "--;" + more, depth + 1, false))
    ensures Filter(before, ";--" + (Rendered(body) + ("--;" + more)), depth, depth == 0) ==
      Filter("", more, depth, depth == 0)
  {
    hide Filter, Prepend, Rendered, Escaped;
    var inner := Rendered(body) + ("--;" + more);
    assert inner[0] == Rendered(body)[0];
    FilterOpens(before, inner, depth, depth == 0);
    PrependNothing(Filter(Since("", body), "--;" + more, depth + 1, false));
    FilterCloses(Since("", body), more, depth);
  }

  lemma {:induction false} FilterRendered(before: string, ps: seq<Piece>, rest: string, depth: nat)
    requires Clean(ps, rest) && depth + Depth(ps) <= MAX_NEXT_COMMENT && !Escaped(before, |before|)
    ensures Filter(before, Rendered(ps) + rest, depth, depth == 0) ==
      Prepend(Shown(Outer(ps), depth == 0), Filter(Since(before, ps), rest, depth, depth == 0))
    ensures !Escaped(Since(before, ps), |Since(before, ps)|)
    decreases ps
  {
    hide Filter, StartsAt, EndsAt, Rendered, Prepend;
    if ps == [] {
      NothingRendered(rest);
      PrependNothing(Filter(before, rest, depth, depth == 0));
    } else {
      var more, top := Rendered(ps[1..]) + rest, depth == 0;
      RenderedHead(ps, rest);
      match ps[0] {
        case Text(s) =>
          AfterText(before, s);
          FilterText(before, s, more, depth, top);
          FilterRendered(before + s, ps[1..], rest, depth);
          assert Shown(s, top) + Shown(Outer(ps[1..]), top) == Shown(Outer(ps), top);
          PrependTwice(Shown(s, top), Shown(Outer(ps[1..]), top), Filter(Since(before, ps), rest, depth, top));
        case Comment(body) =>
          CleanBefore(body, "--;", "--;" + more);
          FilterRendered("", body, "--;" + more, depth + 1);
          FilterComment(before, body, more, depth);
          FilterRendered("", ps[1..], rest, depth);
          assert Outer(ps) == Outer(ps[1..]);
      }
    }
  }

  lemma NothingRendered(rest: string)
    ensures Rendered([]) + rest == rest && Outer([]) == ""
  {
  }

  lemma AfterText(before: string, s: string)
    requires !Escaped(before, |before|) && (s == "" || s[|s| - 1] != '\\')
    ensures !Escaped(before + s, |before + s|)
  {
    assert s == "" ==> before + s == before;
  }

  /** Only the first character behind the pieces matters. */
  lemma {:induction false} CleanBefore(ps: seq<Piece>, a: string, b: string)
    requires Clean(ps, a) && a != "" && b != "" && a[0] == b[0]
    ensures Clean(ps, b)
    decreases ps
  {
    if ps != [] {
      CleanBefore(ps[1..], a, b);
    }
  }

  lemma ShownIsLeft(line: string, text: string)
    requires Filter("", line, 0, true) == Filtered(0, text)
    ensures ScanLine(line, 0) == Done(0, Some(text))
  {
    hide Filter, Scan;
    ScanIsFilter("", line, 0, Open);
    assert "" + text == text;
  }

  /** A line written with comments, nested up to the limit, is stripped to its outer texts. */
  lemma RenderedIsStripped(ps: seq<Piece>)
    requires Clean(ps, "") && Depth(ps) <= MAX_NEXT_COMMENT
    ensures ScanLine(Rendered(ps), 0) == Done(0, Some(Outer(ps)))
  {
    assert !Escaped("", 0);
    hide Filter, Scan, Rendered, Outer, Clean, Depth, Since, Escaped;
    FilterRendered("", ps, "", 0);
    assert Rendered(ps) + "" == Rendered(ps);
    FilterEmpty(Since("", ps));
    assert Outer(ps) + "" == Outer(ps);
    ShownIsLeft(Rendered(ps), Outer(ps));
  }

  lemma FilterEmpty(before: string)
    ensures Filter(before, "", 0, true) == Filtered(0, "")
  {
  }

  lemma FilterStops(before: string, rest: string)
    requires rest != "" && rest[0] == ';'
    requires !Escaped(before, |before|) && !EndsAt(before, |before|) && !StartsAt(rest, 0)
    ensures Filter(before, rest, 0, true) == Filtered(0, "")
  {
  }

  /** Dashes at the end of a text, and at the beginning of a remark. */
  predicate EndsInDashes(s: string) {
    |s| >= 2 && s[|s| - 2..] == "--"
  }

  predicate TwoDashes(s: string) {
    |s| >= 2 && s[..2] == "--" && (|s| == 2 || s[2] != '-')
  }

  lemma MarksAre(s: string)
    ensures EndsAt(s, |s|) <==> EndsInDashes(s)
    ensures StartsAt(";" + s, 0) <==> TwoDashes(s)
  {
    var t := ";" + s;
    assert forall i :: 0 <= i < |s| ==> t[i + 1] == s[i];
    assert |s| >= 2 ==> s[..2] == [s[0], s[1]] && s[|s| - 2..] == [s[|s| - 2], s[|s| - 1]];
  }

  /** A semicolon that neither opens nor closes a comment ends the line: one not behind a
      backslash or two dashes, and not in front of exactly two. */
  lemma LoneSemicolon(ps: seq<Piece>, remark: string)
    requires Clean(ps, ";" + remark) && Depth(ps) <= MAX_NEXT_COMMENT
    requires !EndsInDashes(Since("", ps)) && !TwoDashes(remark)
    ensures ScanLine(Rendered(ps) + ";" + remark, 0) == Done(0, Some(Outer(ps)))
  {
    assert !Escaped("", 0);
    MarksAre(remark);
    MarksAre(Since("", ps));
    hide Rendered, Outer, Clean, Depth, Since, Escaped, Filter, StartsAt, EndsAt;
    var line, b := Rendered(ps) + ";" + remark, Since("", ps);
    FilterRendered("", ps, ";" + remark, 0);
    assert line == Rendered(ps) + (";" + remark);
    FilterStops(b, ";" + remark);
    assert Outer(ps) + "" == Outer(ps);
    ShownIsLeft(line, Outer(ps));
  }

  /** A line without a semicolon is text exactly where no comment is open. */
  lemma OrdinaryLine(line: string, depth: int)
    requires ';' !in line
    ensures ScanLine(line, depth) == Done(depth, if depth == 0 then Some(line) else None)
  {
    MetaIs(line, |line|);
    assert depth == 0 ==> "" + line == line;
  }

  /** Every semicolon has a backslash in front of it. */
  predicate EscapedOnly(s: string) {
    forall i :: 0 <= i < |s| && s[i] == ';' ==> i > 0 && s[i - 1] == '\\'
  }

  /** A line in which every semicolon is escaped is text from end to end. */
  lemma {:induction false} EscapedLine(kept: string, rest: string)
    requires EscapedOnly(rest)
    ensures Scan(kept, rest, 0, Open) == Done(0, Some(kept + rest))
    decreases |rest|
  {
    var p := Meta(rest);
    if p < |rest| {
      assert Escaped(rest, p);
      EscapedLine(kept + rest[..p + 1], rest[p + 1..]);
      assert kept + rest[..p + 1] + rest[p + 1..] == kept + rest;
    }
  }

  /** A line that begins with a lone semicolon is a comment. */
  lemma CommentLine(line: string)
    requires |line| > 1 && line[0] == ';' && line[1] != '-'
    ensures ScanLine(line, 0) == Done(0, Some(""))
  {
    assert Meta(line) == 0 && "" + line[..0] == "";
    assert !Escaped(line, 0) && !StartsAt(line, 0) && !EndsAt(line, 0);
  }

  function CountStarts(s: string): nat {
    if s == "" then 0 else (if StartsAt(s, 0) then 1 else 0) + CountStarts(s[1..])
  }

  lemma {:induction false} DropStarts(s: string, n: nat)
    requires n <= |s|
    ensures CountStarts(s[n..]) <= CountStarts(s)
    decreases n
  {
    if n > 0 {
      DropStarts(s[1..], n - 1);
      assert s[1..][n - 1..] == s[n..];
    } else {
      assert s[0..] == s;
    }
  }

  /** The loop ends on every line that does not open more comments than the limit leaves. */
  lemma {:induction false} FewStartsEnd(before: string, rest: string, depth: int, showing: bool)
    requires depth + CountStarts(rest) <= MAX_NEXT_COMMENT
    ensures Filter(before, rest, depth, showing) != Stuck
    ensures depth >= 0 && !Strays(before, rest, depth) ==> StartsFit(before, rest, depth)
    decreases |rest|
  {
    if rest == "" {
    } else if rest[0] != ';' {
      FewStartsEnd(before + rest[..1], rest[1..], depth, showing);
    } else if Escaped(before, |before|) {
      FewStartsEnd("", rest[1..], depth, showing);
    } else if StartsAt(rest, 0) {
      DropStarts(rest[1..], 2);
      assert rest[1..][2..] == rest[3..];
      FewStartsEnd("", rest[3..], depth + 1, false);
    } else if EndsAt(before, |before|) {
      FewStartsEnd("", rest[1..], depth - 1, showing || depth == 1);
    } else if depth != 0 {
      FewStartsEnd("", rest[1..], depth, showing);
    }
  }

  /** A comment end with nothing open takes the depth below 0, from where nothing brings the
      text back: ends lead further down, and a start is a write outside nest. */
  lemma {:induction false} NegativeStays(kept: string, rest: string, depth: int, mode: Mode)
    requires depth < 0
    ensures var o := Scan(kept, rest, depth, mode);
      o == Outside || (o.Done? && o.depth < 0 && (mode == Absent ==> o.text == None))
    ensures CountStarts(rest) == 0 ==> Scan(kept, rest, depth, mode).Done?
    decreases |rest|
  {
    hide Scan, Escaped, EndsAt;
    var p := Meta(rest);
    if p < |rest| {
      ScanUnfolds(kept, rest, depth, mode, p, Scan(kept, rest, depth, mode));
      StartsBehind(rest, p);
      var next := if !Escaped(rest, p) && EndsAt(rest, p) then depth - 1 else depth;
      NegativeStays(Passed(kept, rest[..p + 1], mode), rest[p + 1..], next, mode);
    } else {
      ScanNothing(kept, rest, depth, mode);
    }
  }

  lemma ScanNothing(kept: string, rest: string, depth: int, mode: Mode)
    requires (mode == Open ==> depth <= 0) && Meta(rest) == |rest|
    ensures Scan(kept, rest, depth, mode) == Done(depth, TextOf(kept, rest, mode))
  {
  }

  lemma StartsBehind(rest: string, p: nat)
    requires p < |rest|
    ensures CountStarts(rest) == 0 ==> CountStarts(rest[p + 1..]) == 0 && !StartsAt(rest, p)
  {
    DropStarts(rest, p);
    DropStarts(rest, p + 1);
    LookBack(rest, p);
  }

  /** After a stray end no later line yields text. */
  lemma {:induction false} StrayEndHidesFile(lines: seq<string>, depth: int)
    requires depth < 0
    ensures var r := ScanLines(lines, depth);
      r == Lost || (r.Loaded? && r.depth < 0 && forall t :: t in r.texts ==> t == None)
    ensures (forall l :: l in lines ==> CountStarts(l) == 0) ==> ScanLines(lines, depth).Loaded?
  {
    hide Scan;
    if lines != [] {
      NegativeStays("", lines[0], depth, Absent);
      if ScanLine(lines[0], depth).Done? {
        StrayEndHidesFile(lines[1..], ScanLine(lines[0], depth).depth);
      }
    }
  }

  lemma StrayEndExample()
    ensures ScanLine("--;", 0) == Done(-1, Some("--;"))
    ensures ScanLines(["--;", "a = b"], 0) == Loaded(-1, [Some("--;"), None])
  {
    var line := "--;";
    assert Meta(line) == 2 by { assert line[1..][1..] == ";"; }
    assert line[3..] == "" && line[..3] == line;
    assert "" + line == line && line + "" == line;
    OrdinaryLine("a = b", -1);
    assert ["--;", "a = b"][1..] == ["a = b"] && ["a = b"][1..] == [];
  }

  /** With a comment start on the second line instead, nest[-1] is written. */
  lemma StartAfterStray()
    ensures ScanLine(";-- x", -1) == Outside && ScanLines(["--;", ";-- x"], 0) == Lost
  {
    StrayEndExample();
    var line := ";-- x";
    assert Meta(line) == 0 && StartsAt(line, 0) && !Escaped(line, 0);
    assert ["--;", line][1..] == [line];
  }

  /** The depth never passes the limit. */
  lemma {:induction false} DepthStays(kept: string, rest: string, depth: int, mode: Mode)
    requires (mode == Open ==> depth <= 0) && (mode == Absent ==> kept == "") && depth <= MAX_NEXT_COMMENT
    ensures Scan(kept, rest, depth, mode).Done? ==> Scan(kept, rest, depth, mode).depth <= MAX_NEXT_COMMENT
    decreases |rest|
  {
    hide Scan, Escaped, EndsAt, StartsAt;
    var q := Meta(rest);
    if q == |rest| {
      ScanStops(State(kept, rest, depth, mode));
    } else {
      ScanUnfolds(kept, rest, depth, mode, q, Scan(kept, rest, depth, mode));
      var past := Passed(kept, rest[..q + 1], mode);
      if Escaped(rest, q) {
        DepthStays(past, rest[q + 1..], depth, mode);
      } else if StartsAt(rest, q) {
        if 0 <= depth < MAX_NEXT_COMMENT {
          DepthStays(Passed(kept, rest[..q], mode), rest[q + 3..], depth + 1, if mode == Open then Cut else mode);
        }
      } else if EndsAt(rest, q) {
        if depth == 1 {
          DepthStays(kept, rest[q + 1..], 0, Open);
        } else {
          DepthStays(past, rest[q + 1..], depth - 1, mode);
        }
      } else if depth != 0 {
        DepthStays(past, rest[q + 1..], depth, mode);
      }
    }
  }

  // ---------- the loop itself, on the line buffer ----------

  /** How the buffer holds what the scanning function works on. */
  ghost predicate Layout(b: seq<char>, newBuf: int, processBuf: int, kept: string, rest: string, mode: Mode) {
    && IsString(b, newBuf, rest)
    && match mode
       case Absent => processBuf == -1 && kept == ""
       case Open => 0 <= processBuf && processBuf + |kept| == newBuf && b[processBuf..newBuf] == kept && NUL !in kept
       case Cut => processBuf + |kept| < newBuf && IsString(b, processBuf, kept)
  }

  /** What is kept and the first p characters of what follows it. */
  lemma Meet(b: seq<char>, from: int, mid: int, kept: string, rest: string, p: nat, b': seq<char>)
    requires 0 <= from <= mid && mid + |rest| <= |b| == |b'| && p <= |rest|
    requires b[from..mid] == kept && b[mid..mid + |rest|] == rest
    requires forall i :: from <= i < mid + p ==> b'[i] == b[i]
    ensures b'[from..mid + p] == kept + rest[..p]
  {
    var all := b'[from..mid + p];
    forall i | 0 <= i < |all|
      ensures all[i] == (kept + rest[..p])[i]
    {
      if i < |kept| {
        assert b[from..mid][i] == b[from + i];
      } else {
        assert b[mid..mid + |rest|][i - |kept|] == b[from + i];
      }
    }
  }

  lemma LayoutPass(b: seq<char>, newBuf: int, processBuf: int, kept: string, rest: string, mode: Mode, n: nat)
    requires Layout(b, newBuf, processBuf, kept, rest, mode) && n <= |rest|
    ensures Layout(b, newBuf + n, processBuf, Passed(kept, rest[..n], mode), rest[n..], mode)
  {
    assert b[newBuf + n..newBuf + |rest|] == rest[n..] && b[newBuf..newBuf + n] == rest[..n];
    if mode == Open {
      Meet(b, processBuf, newBuf, kept, rest, n, b);
    }
  }

  /** A NUL written at the p-th character of the rest; the text goes on at the n-th. */
  lemma LayoutCut(b: seq<char>, newBuf: int, processBuf: int, kept: string, rest: string, mode: Mode, p: nat, n: nat,
                  b': seq<char>)
    requires Layout(b, newBuf, processBuf, kept, rest, mode) && p < n <= |rest| && b' == b[newBuf + p := NUL]
    ensures Layout(b', newBuf + n, processBuf, Passed(kept, rest[..p], mode), rest[n..],
      if mode == Open then Cut else mode)
  {
    assert b'[newBuf + n..newBuf + |rest|] == rest[n..];
    if mode == Open {
      Meet(b, processBuf, newBuf, kept, rest, p, b');
    } else if mode == Cut {
      assert b'[processBuf..processBuf + |kept|] == kept;
    }
  }

  /** The NUL that ends the line for good. */
  lemma LayoutStop(b: seq<char>, newBuf: int, processBuf: int, kept: string, rest: string, mode: Mode, p: nat,
                   b': seq<char>)
    requires Layout(b, newBuf, processBuf, kept, rest, mode) && p < |rest| && b' == b[newBuf + p := NUL]
    ensures Layout(b', newBuf + p, processBuf, Passed(kept, rest[..p], mode), "", mode)
  {
    if mode == Open {
      Meet(b, processBuf, newBuf, kept, rest, p, b');
    } else if mode == Cut {
      assert b'[processBuf..processBuf + |kept|] == kept;
    }
  }

  /** What remains, moved over the cut. */
  lemma LayoutMove(b: seq<char>, newBuf: int, processBuf: int, kept: string, rest: string, b': seq<char>)
    requires Layout(b, newBuf, processBuf, kept, rest, Cut) && |b'| == |b|
    requires var d := processBuf + |kept|;
      && (forall i :: 0 <= i < d ==> b'[i] == b[i])
      && (forall j :: d <= j <= d + |rest| ==> b'[j] == b[j + (newBuf - d)])
    ensures Layout(b', processBuf + |kept|, processBuf, kept, rest, Open)
  {
    var d := processBuf + |kept|;
    assert b'[processBuf..d] == b[processBuf..d];
    assert b'[d..d + |rest|] == b[newBuf..newBuf + |rest|];
  }

  lemma LayoutText(b: seq<char>, newBuf: int, processBuf: int, kept: string, rest: string, mode: Mode)
    requires Layout(b, newBuf, processBuf, kept, rest, mode)
    ensures processBuf == -1 <==> TextOf(kept, rest, mode) == None
    ensures processBuf != -1 ==> IsString(b, processBuf, TextOf(kept, rest, mode).value)
  {
    if mode == Open {
      Meet(b, processBuf, newBuf, kept, rest, |rest|, b);
      assert rest[..|rest|] == rest;
    }
  }

  lemma MetaIs(s: string, k: nat)
    requires k <= |s| && (k < |s| ==> s[k] == ';') && forall i :: 0 <= i < k ==> s[i] != ';'
    ensures Meta(s) == k
  {
  }

  lemma LayoutBegins(b: seq<char>, line: string, comment: int)
    requires IsString(b, 0, line)
    ensures Layout(b, 0, if comment != 0 then -1 else 0, "", line, if comment == 0 then Open else Absent)
  {
  }

  lemma LayoutResumes(b: seq<char>, newBuf: int, kept: string, rest: string)
    requires Layout(b, newBuf, -1, kept, rest, Absent)
    ensures Layout(b, newBuf, newBuf, kept, rest, Open)
  {
  }

  lemma ReadsAt(b: seq<char>, newBuf: int, rest: string, i: nat)
    requires IsString(b, newBuf, rest) && i <= |rest|
    ensures 0 <= newBuf && newBuf + i < |b| && b[newBuf + i] == At(rest, i)
  {
  }

  /** What the loop reads around the semicolon it has found, in terms of the string there. */
  lemma ReadsBehind(b: seq<char>, newBuf: int, rest: string, q: nat)
    requires IsString(b, newBuf, rest) && q < |rest|
    ensures var p := newBuf + q;
      && (Escaped(rest, q) <==> p > newBuf && b[p - 1] == '\\')
      && (EndsAt(rest, q) <==> p >= newBuf + 2 && b[p - 1] == '-' && b[p - 2] == '-')
  {
    if q > 0 {
      ReadsAt(b, newBuf, rest, q - 1);
      if q > 1 { ReadsAt(b, newBuf, rest, q - 2); }
    }
  }

  lemma ReadsAhead(b: seq<char>, newBuf: int, rest: string, q: nat)
    requires IsString(b, newBuf, rest) && q < |rest| && rest[q] == ';'
    ensures var p := newBuf + q;
      && p + 1 < |b|
      && (b[p + 1] == '-' ==> p + 2 < |b| && (b[p + 2] == '-' ==> p + 3 < |b|))
      && (StartsAt(rest, q) <==> b[p + 1] == '-' && b[p + 2] == '-' && b[p + 3] != '-')
  {
    hide IsString;
    ReadsAt(b, newBuf, rest, q + 1);
    if b[newBuf + q + 1] == '-' {
      ReadsAt(b, newBuf, rest, q + 2);
      if b[newBuf + q + 2] == '-' {
        ReadsAt(b, newBuf, rest, q + 3);
      }
    }
  }

  /** Back to text after a comment in the middle of a line: what is left moves over the cut. */
  method Resume(buf: array<char>, newBuf: nat, processBuf: nat, ghost kept: string, ghost rest: string)
    returns (oldPtr: nat)
    requires Layout(buf[..], newBuf, processBuf, kept, rest, Cut)
    modifies buf
    ensures Layout(buf[..], oldPtr, processBuf, kept, rest, Open)
  {
    ghost var b := buf[..];
    var n := StrLen(buf, processBuf, kept);
    oldPtr := processBuf + n;
    var m := StrLen(buf, newBuf, rest);
    MoveDown(buf, oldPtr, newBuf, m + 1);
    LayoutMove(b, newBuf, processBuf, kept, rest, buf[..]);
  }

  lemma LayoutString(b: seq<char>, newBuf: int, processBuf: int, kept: string, rest: string, mode: Mode)
    requires Layout(b, newBuf, processBuf, kept, rest, mode)
    ensures IsString(b, newBuf, rest) && 0 <= newBuf && newBuf + |rest| < |b| && processBuf >= -1
      && (processBuf == -1 <==> mode == Absent)
  {
  }

  /** A comment start: the text is cut off in front of it. */
  method Enter(buf: array<char>, newBuf: nat, p: nat, processBuf: int, ghost kept: string, ghost rest: string,
               ghost mode: Mode)
    returns (newBuf': nat)
    requires Layout(buf[..], newBuf, processBuf, kept, rest, mode) && newBuf <= p && p - newBuf + 3 <= |rest|
    modifies buf
    ensures Layout(buf[..], newBuf', processBuf, Passed(kept, rest[..p - newBuf], mode), rest[p - newBuf + 3..],
                   if mode == Open then Cut else mode)
  {
    hide Layout, IsString;
    ghost var b := buf[..];
    LayoutString(b, newBuf, processBuf, kept, rest, mode);
    LayoutCut(b, newBuf, processBuf, kept, rest, mode, p - newBuf, p - newBuf + 3, b[p := NUL]);
    buf[p] := NUL;
    newBuf' := p + 3;
    assert buf[..] == b[p := NUL];
  }

  /** A lone semicolon outside comments: the line ends there. */
  method Stop(buf: array<char>, newBuf: nat, p: nat, processBuf: int, ghost kept: string, ghost rest: string,
              ghost mode: Mode)
    requires Layout(buf[..], newBuf, processBuf, kept, rest, mode) && 0 <= p - newBuf < |rest|
    modifies buf
    ensures Layout(buf[..], p, processBuf, Passed(kept, rest[..p - newBuf], mode), "", mode)
  {
    hide Layout, IsString;
    ghost var b := buf[..];
    LayoutString(b, newBuf, processBuf, kept, rest, mode);
    LayoutStop(b, newBuf, processBuf, kept, rest, mode, p - newBuf, b[p := NUL]);
    buf[p] := NUL;
    assert buf[..] == b[p := NUL];
  }

  /** A comment end that brings the depth back to 0. */
  method Leave(buf: array<char>, newBuf: nat, processBuf: int, ghost kept: string, ghost rest: string, ghost mode: Mode)
    returns (newBuf': nat, processBuf': int)
    requires Layout(buf[..], newBuf, processBuf, kept, rest, mode) && mode != Open
    modifies buf
    ensures Layout(buf[..], newBuf', processBuf', kept, rest, Open)
  {
    newBuf', processBuf' := newBuf, processBuf;
    LayoutString(buf[..], newBuf, processBuf, kept, rest, mode);
    if processBuf != -1 {
      newBuf' := Resume(buf, newBuf, processBuf, kept, rest);
    } else {
      processBuf' := newBuf;
      LayoutResumes(buf[..], newBuf, kept, rest);
    }
  }

  /** One turn of the while loop, at the semicolon found at index p: what the buffer, nest and the
      variables hold afterwards is the state after the turn. At the limit nothing changes. */
  method Step(buf: array<char>, newBuf: nat, p: nat, comment: int, processBuf: int, nest: array<int>, lineno: int,
              ghost s: State)
    returns (newBuf': nat, depth: int, processBuf': int)
    requires Layout(buf[..], newBuf, processBuf, s.kept, s.rest, s.mode) && StateOk(s) && comment == s.depth
    requires Runs(s) && p == newBuf + Meta(s.rest) && nest.Length == MAX_NEXT_COMMENT
    modifies buf, nest
    ensures var s' := Turn(s); Layout(buf[..], newBuf', processBuf', s'.kept, s'.rest, s'.mode) && depth == s'.depth
    ensures nest[..] == NestTurn(s, old(nest[..]), lineno)
    ensures AtLimit(s) ==>
      buf[..] == old(buf[..]) && newBuf' == newBuf && depth == comment && processBuf' == processBuf
  {
    hide Escaped, StartsAt, EndsAt, IsString, Layout, Turn, Passed, Meta;
    ghost var b, q, rest := buf[..], p - newBuf, s.rest;
    TurnCases(s, q);
    LayoutString(b, newBuf, processBuf, s.kept, rest, s.mode);
    ReadsBehind(b, newBuf, rest, q);
    ReadsAhead(b, newBuf, rest, q);
    newBuf', depth, processBuf' := p + 1, comment, processBuf;
    LayoutPass(b, newBuf, processBuf, s.kept, rest, s.mode, q + 1);
    if p > newBuf && buf[p - 1] == '\\' {
    } else if buf[p + 1] == '-' && buf[p + 2] == '-' && buf[p + 3] != '-' {
      if comment < MAX_NEXT_COMMENT {
        newBuf' := Enter(buf, newBuf, p, processBuf, s.kept, rest, s.mode);
        depth := depth + 1;
        nest[depth - 1] := lineno;
      } else {
        newBuf' := newBuf;
      }
    } else if p >= newBuf + 2 && buf[p - 1] == '-' && buf[p - 2] == '-' {
      depth := depth - 1;
      if depth == 0 {
        OutsideOpen(s, rest[..q + 1]);
        newBuf', processBuf' := Leave(buf, p + 1, processBuf, s.kept, rest[q + 1..], s.mode);
      }
    } else if depth == 0 {
      Stop(buf, newBuf, p, processBuf, s.kept, rest, s.mode);
      newBuf' := p;
    }
  }

  lemma OutsideOpen(s: State, t: string)
    requires StateOk(s) && s.depth == 1
    ensures s.mode != Open && Passed(s.kept, t, s.mode) == s.kept
  {
  }

  lemma TurnCases(s: State, q: nat)
    requires Runs(s) && q == Meta(s.rest)
    ensures q < |s.rest| && s.rest[q] == ';' && (StartsAt(s.rest, q) ==> q + 3 <= |s.rest|)
    ensures AtStart(s) <==> !Escaped(s.rest, q) && StartsAt(s.rest, q)
    ensures AtStart(s) ==> s.depth >= 0
    ensures var s', past := Turn(s), State(Passed(s.kept, s.rest[..q + 1], s.mode), s.rest[q + 1..], s.depth, s.mode);
      var cut := Passed(s.kept, s.rest[..q], s.mode);
      if Escaped(s.rest, q) then s' == past
      else if StartsAt(s.rest, q) then
        if s.depth >= MAX_NEXT_COMMENT then s' == s
        else s' == State(cut, s.rest[q + 3..], s.depth + 1, if s.mode == Open then Cut else s.mode)
      else if EndsAt(s.rest, q) then
        if s.depth == 1 then s' == State(s.kept, past.rest, 0, Open) else s' == past.(depth := s.depth - 1)
      else if s.depth == 0 then s' == s.(kept := cut, rest := "")
      else s' == past
  {
  }

  /** The loop over one line. `comment` is the nesting depth on entry and
      `depth` on return; `processBuf` is -1 for NULL. Every start that is met finds its place in
      nest. */
  method StripLine(buf: array<char>, comment: int, nest: array<int>, lineno: int, ghost line: string)
    returns (depth: int, processBuf: int)
    requires IsString(buf[..], 0, line) && ScanLine(line, comment).Done? && nest.Length == MAX_NEXT_COMMENT
    modifies buf, nest
    ensures depth == ScanLine(line, comment).depth
    ensures processBuf == -1 <==> ScanLine(line, comment).text == None
    ensures processBuf != -1 ==> IsString(buf[..], processBuf, ScanLine(line, comment).text.value)
  {
    hide Escaped, StartsAt, EndsAt, IsString, Layout, Scan, Turn;
    depth := comment;
    var newBuf := 0;
    processBuf := if comment != 0 then -1 else 0;
    ghost var s := State("", line, comment, if comment == 0 then Open else Absent);
    LayoutBegins(buf[..], line, comment);
    var p := FindMeta(buf, newBuf, line);
    while p != -1
      invariant Layout(buf[..], newBuf, processBuf, s.kept, s.rest, s.mode) && newBuf >= 0
      invariant StateOk(s) && depth == s.depth
      invariant ScanOf(s) == ScanLine(line, comment)
      invariant if InLoop(s) then p == newBuf + Meta(s.rest) else p == -1
      decreases |s.rest|
    {
      if BelowNest(s) { BelowNestLeaves(s); }
      TurnKeepsScan(s);
      newBuf, depth, processBuf := Step(buf, newBuf, p, depth, processBuf, nest, lineno, s);
      s := Turn(s);
      LayoutString(buf[..], newBuf, processBuf, s.kept, s.rest, s.mode);
      p := FindMeta(buf, newBuf, s.rest);
    }
    ScanStops(s);
    LayoutText(buf[..], newBuf, processBuf, s.kept, s.rest, s.mode);
  }

  lemma ScanStops(s: State)
    requires StateOk(s) && !InLoop(s)
    ensures ScanOf(s) == Done(s.depth, TextOf(s.kept, s.rest, s.mode))
  {
  }

  method FindMeta(buf: array<char>, newBuf: nat, ghost rest: string) returns (p: int)
    requires IsString(buf[..], newBuf, rest)
    ensures if Meta(rest) == |rest| then p == -1 else p == newBuf + Meta(rest)
  {
    var i := newBuf;
    assert forall k :: 0 <= k < |rest| ==> buf[newBuf + k] == rest[k] && rest[k] in rest;
    while buf[i] != NUL && buf[i] != ';'
      invariant newBuf <= i <= newBuf + |rest|
      invariant forall k :: 0 <= k < i - newBuf ==> rest[k] != ';'
      decreases newBuf + |rest| - i
    {
      i := i + 1;
    }
    MetaIs(rest, i - newBuf);
    p := if buf[i] == NUL then -1 else i;
  }

  /** memmove towards the front. */
  method MoveDown(buf: array<char>, dst: nat, src: nat, n: nat)
    requires dst <= src && src + n <= buf.Length
    modifies buf
    ensures forall i :: 0 <= i < dst ==> buf[i] == old(buf[i])
    ensures forall j :: dst <= j < dst + n ==> buf[j] == old(buf[..])[j + (src - dst)]
  {
    var k := 0;
    while k < n
      invariant k <= n
      invariant forall i :: 0 <= i < dst ==> buf[i] == old(buf[i])
      invariant forall j :: dst <= j < dst + k ==> buf[j] == old(buf[..])[j + (src - dst)]
      invariant forall i :: dst + k <= i < buf.Length ==> buf[i] == old(buf[i])
    {
      buf[dst + k] := buf[src + k];
      k := k + 1;
    }
  }
}
