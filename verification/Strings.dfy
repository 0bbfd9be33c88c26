/** C strings in character arrays, and the helpers of strings.c: trimming in place and joining
    into a buffer of limited size. */
module Strings {

  const NUL: char := '\0'

  /** The C string t is stored at index i. */
  ghost predicate IsString(b: seq<char>, i: int, t: string) {
    0 <= i && i + |t| < |b| && b[i..i + |t|] == t && b[i + |t|] == NUL && NUL !in t
  }

  method StrLen(buf: array<char>, from: nat, ghost s: string) returns (n: nat)
    requires IsString(buf[..], from, s)
    ensures n == |s|
  {
    n := 0;
    assert forall k :: 0 <= k < |s| ==> buf[from + k] == s[k] && s[k] in s;
    while buf[from + n] != NUL
      invariant n <= |s|
      decreases |s| - n
    {
      n := n + 1;
    }
  }

  // ---------- case-insensitive comparison ----------

  function Lower(c: char): char {
    if 'A' <= c <= 'Z' then (c as int + 32) as char else c
  }

  function Folded(s: string): string {
    if s == "" then "" else [Lower(s[0])] + Folded(s[1..])
  }

  /** strcasecmp finds no difference. */
  predicate CaseEq(a: string, b: string) {
    Folded(a) == Folded(b)
  }

  const CAPITALS := "ABCDEFGHIJKLMNOPQRSTUVWXYZ"
  const SMALL := "abcdefghijklmnopqrstuvwxyz"

  /** The same character, or the same letter as a capital and a small one. */
  ghost predicate SameLetter(c: char, d: char) {
    c == d || exists k :: 0 <= k < 26 && ((c == CAPITALS[k] && d == SMALL[k]) || (c == SMALL[k] && d == CAPITALS[k]))
  }

  lemma LetterAt(k: nat)
    requires k < 26
    ensures CAPITALS[k] as int == 'A' as int + k && SMALL[k] as int == 'a' as int + k
  {
  }

  lemma SameLower(c: char, d: char)
    ensures Lower(c) == Lower(d) <==> SameLetter(c, d)
  {
    forall k: nat | k < 26
      ensures CAPITALS[k] as int == 'A' as int + k && SMALL[k] as int == 'a' as int + k
    {
      LetterAt(k);
    }
    if Lower(c) == Lower(d) && c != d {
      var k: nat := (if 'A' <= c <= 'Z' then c else d) as int - 'A' as int;
      assert CAPITALS[k] == (if 'A' <= c <= 'Z' then c else d);
    }
  }

  /** Two strings are equal to strcasecmp exactly if they are as long as each other and differ in
      nothing but the case of letters. */
  lemma {:induction false} CaseEqIs(a: string, b: string)
    ensures CaseEq(a, b) <==> |a| == |b| && forall i :: 0 <= i < |a| ==> SameLetter(a[i], b[i])
    decreases |a|
  {
    hide SameLetter, Lower;
    if a != "" && b != "" {
      SameLower(a[0], b[0]);
      CaseEqIs(a[1..], b[1..]);
      assert Folded(a)[1..] == Folded(a[1..]) && Folded(b)[1..] == Folded(b[1..]);
      assert Folded(a)[0] == Lower(a[0]) && Folded(b)[0] == Lower(b[0]);
      assert CaseEq(a, b) <==> Lower(a[0]) == Lower(b[0]) && CaseEq(a[1..], b[1..]);
      assert forall i :: 0 < i < |a| ==> a[i] == a[1..][i - 1];
      assert forall i :: 0 < i < |b| ==> b[i] == b[1..][i - 1];
    }
  }

  // ---------- trimming ----------

  /** spd_skip_blanks and spd_trim_blanks take everything below 33 for a blank. */
  predicate Blank(c: char) {
    c as int < 33
  }

  predicate AllBlank(s: string) {
    forall i :: 0 <= i < |s| ==> Blank(s[i])
  }

  predicate Trimmed(s: string) {
    s == "" || (!Blank(s[0]) && !Blank(s[|s| - 1]))
  }

  function SkipBlanks(s: string): string {
    if s != "" && Blank(s[0]) then SkipBlanks(s[1..]) else s
  }

  function TrimBlanks(s: string): string {
    if s != "" && Blank(s[|s| - 1]) then TrimBlanks(s[..|s| - 1]) else s
  }

  function Strip(s: string): string {
    TrimBlanks(SkipBlanks(s))
  }

  lemma {:induction false} SkipsLeading(a: string, s: string)
    requires AllBlank(a) && (s == "" || !Blank(s[0]))
    ensures SkipBlanks(a + s) == s
  {
    if a == "" {
      assert a + s == s;
    } else {
      assert (a + s)[1..] == a[1..] + s;
      SkipsLeading(a[1..], s);
    }
  }

  lemma {:induction false} TrimsTrailing(s: string, b: string)
    requires AllBlank(b) && (s == "" || !Blank(s[|s| - 1]))
    ensures TrimBlanks(s + b) == s
    decreases |b|
  {
    if b == "" {
      assert s + b == s;
    } else {
      assert (s + b)[..|s + b| - 1] == s + b[..|b| - 1];
      TrimsTrailing(s, b[..|b| - 1]);
    }
  }

  /** spd_strip is the only function that takes the blanks off both ends and nothing else. */
  lemma StripIs(a: string, m: string, b: string)
    requires AllBlank(a) && Trimmed(m) && AllBlank(b)
    ensures Strip(a + m + b) == m
  {
    if m == "" {
      SkipsLeading(a + b, "");
      assert a + m + b == (a + b) + "";
    } else {
      SkipsLeading(a, m + b);
      assert a + m + b == a + (m + b);
      TrimsTrailing(m, b);
    }
  }

  lemma {:induction false} SkipSplits(s: string) returns (a: string)
    ensures s == a + SkipBlanks(s) && AllBlank(a)
    ensures SkipBlanks(s) == "" || !Blank(SkipBlanks(s)[0])
  {
    if s != "" && Blank(s[0]) {
      var rest := SkipSplits(s[1..]);
      a := s[..1] + rest;
      assert s == s[..1] + s[1..] == a + SkipBlanks(s);
    } else {
      a := "";
      assert s == a + s;
    }
  }

  lemma {:induction false} TrimSplits(s: string) returns (b: string)
    ensures s == TrimBlanks(s) + b && AllBlank(b)
    ensures TrimBlanks(s) == "" || !Blank(TrimBlanks(s)[|TrimBlanks(s)| - 1])
  {
    if s != "" && Blank(s[|s| - 1]) {
      var n := |s| - 1;
      var rest := TrimSplits(s[..n]);
      b := rest + s[n..];
      var m := TrimBlanks(s);
      assert s == s[..n] + s[n..] && s[..n] == m + rest;
      assert (m + rest) + s[n..] == m + b;
    } else {
      b := "";
      assert s == s + b;
    }
  }

  /** What is left has no blank at either end, and only blanks were taken. */
  lemma StripSplits(s: string) returns (a: string, b: string)
    ensures s == a + Strip(s) + b && AllBlank(a) && AllBlank(b) && Trimmed(Strip(s))
  {
    a := SkipSplits(s);
    b := TrimSplits(SkipBlanks(s));
    assert Strip(s) != "" ==> SkipBlanks(s)[0] == Strip(s)[0];
    assert s == a + (Strip(s) + b);
  }

  /** spd_skip_blanks. */
  method SkipInPlace(buf: array<char>, from: nat, ghost s: string) returns (start: nat)
    requires IsString(buf[..], from, s)
    ensures from <= start && start + |SkipBlanks(s)| == from + |s| && IsString(buf[..], start, SkipBlanks(s))
  {
    start := from;
    ghost var rest := s;
    while buf[start] != NUL && Blank(buf[start])
      invariant from <= start && start + |rest| == from + |s|
      invariant IsString(buf[..], start, rest) && SkipBlanks(rest) == SkipBlanks(s)
      decreases |rest|
    {
      HeadOf(buf[..], start, rest);
      start, rest := start + 1, rest[1..];
    }
    HeadOf(buf[..], start, rest);
  }

  /** spd_strip: moves past the leading blanks and writes NULs over the trailing ones. */
  method StripInPlace(buf: array<char>, from: nat, ghost s: string) returns (start: nat)
    requires IsString(buf[..], from, s)
    modifies buf
    ensures from <= start && IsString(buf[..], start, Strip(s))
    ensures forall i :: 0 <= i < buf.Length && (i < from || i > from + |s|) ==> buf[i] == old(buf[i])
  {
    start := SkipInPlace(buf, from, s);
    ghost var rest := SkipBlanks(s);
    var n := StrLen(buf, start, rest);
    var tmp := start + n - 1;
    while tmp >= start && Blank(buf[tmp])
      invariant start - 1 <= tmp && tmp + 1 == start + |rest| <= from + |s|
      invariant IsString(buf[..], start, rest) && TrimBlanks(rest) == Strip(s)
      invariant forall i :: 0 <= i < buf.Length && (i < from || i > from + |s|) ==> buf[i] == old(buf[i])
      decreases |rest|
    {
      LastOf(buf[..], start, rest);
      buf[tmp] := NUL;
      rest, tmp := rest[..|rest| - 1], tmp - 1;
    }
    LastOf(buf[..], start, rest);
  }

  lemma HeadOf(b: seq<char>, i: int, t: string)
    requires IsString(b, i, t)
    ensures t == "" <==> b[i] == NUL
    ensures t != "" ==> b[i] == t[0] && IsString(b, i + 1, t[1..])
  {
    if t != "" {
      assert b[i] == t[0] && t[0] in t;
      assert b[i + 1..i + |t|] == t[1..];
    }
  }

  lemma LastOf(b: seq<char>, i: int, t: string)
    requires IsString(b, i, t)
    ensures t != "" ==> b[i + |t| - 1] == t[|t| - 1]
    ensures t != "" ==> IsString(b[i + |t| - 1 := NUL], i, t[..|t| - 1])
  {
    if t != "" {
      var n := |t| - 1;
      assert b[i + n] == t[n];
      var b' := b[i + n := NUL];
      assert b'[i..i + n] == t[..n];
    }
  }

  // ---------- joining ----------

  /** The words with one blank between neighbours. */
  function Join(words: seq<string>): string {
    var n := |words|;
    if n == 0 then "" else if n == 1 then words[0] else Join(words[..n - 1]) + " " + words[n - 1]
  }

  /** Two lists of words, joined with one blank between them. */
  lemma {:induction false} JoinJoin(a: seq<string>, b: seq<string>)
    requires a != [] && b != []
    ensures Join(a + b) == Join(a) + " " + Join(b)
    decreases |b|
  {
    var n := |b| - 1;
    assert (a + b)[|a| + n] == b[n] && (a + b)[..|a| + n] == a + b[..n];
    if n == 0 {
      assert a + b[..0] == a;
    } else {
      JoinJoin(a, b[..n]);
      assert Join(a) + " " + Join(b[..n]) + " " + b[n] == Join(a) + " " + (Join(b[..n]) + " " + b[n]);
    }
  }

  function Take(s: string, n: nat): string {
    if |s| <= n then s else s[..n]
  }

  function Glue(x: nat): string {
    if x > 0 then " " else ""
  }

  lemma JoinNext(words: seq<string>, x: nat)
    requires x < |words|
    ensures Join(words[..x + 1]) == Join(words[..x]) + Glue(x) + words[x]
  {
    assert words[..x + 1][..x] == words[..x];
    if x == 0 {
      assert Join(words[..1]) == words[0] && Join(words[..0]) + "" + words[0] == words[0];
    }
  }

  /** A full buffer keeps its contents whatever would follow. */
  lemma {:induction false} TakeFull(words: seq<string>, x: nat, n: nat)
    requires x <= |words| && |Join(words[..x])| >= n
    ensures Take(Join(words), n) == Take(Join(words[..x]), n)
    decreases |words| - x
  {
    if x < |words| {
      JoinNext(words, x);
      TakeFull(words, x + 1, n);
    } else {
      assert words[..x] == words;
    }
  }

  /** spd_str_join: as much of the joined words as fits, NUL-terminated. */
  method StrJoin(s: array<char>, len: nat, w: seq<string>)
    requires 1 <= len <= s.Length && forall x :: x in w ==> NUL !in x
    modifies s
    ensures IsString(s[..], 0, Take(Join(w), len - 1))
  {
    var x, ofs := 0, 0;
    while ofs < len && x < |w|
      invariant x <= |w| && ofs <= len
      invariant s[..ofs] == Take(Join(w[..x]), len)
    {
      ghost var before := Join(w[..x]) + Glue(x);
      JoinNext(w, x);
      if x > 0 {
        s[ofs] := ' ';
        ofs := ofs + 1;
      }
      assert s[..ofs] == Take(before, len);
      ofs := Copy(s, len, ofs, w[x], before);
      x := x + 1;
    }
    TakeJoined(w, x, len, s[..ofs]);
    JoinNoNul(w);
    if ofs == len {
      ofs := ofs - 1;
    }
    s[ofs] := NUL;
    assert s[0..ofs] == Take(Join(w), len - 1);
  }

  lemma TakeJoined(w: seq<string>, x: nat, len: nat, t: string)
    requires x <= |w| && t == Take(Join(w[..x]), len) && (x == |w| || |t| == len)
    ensures t == Take(Join(w), len)
  {
    if x == |w| {
      assert w[..x] == w;
    } else {
      TakeFull(w, x, len);
    }
  }

  lemma {:induction false} JoinNoNul(w: seq<string>)
    requires forall x :: x in w ==> NUL !in x
    ensures NUL !in Join(w)
  {
    if |w| > 1 {
      JoinNoNul(w[..|w| - 1]);
    }
  }

  /** The inner loop: the characters of one word, as far as there is room. */
  method Copy(s: array<char>, len: nat, from: nat, src: string, ghost before: string) returns (ofs: nat)
    requires from <= len <= s.Length && s[..from] == Take(before, len)
    modifies s
    ensures ofs <= len && s[..ofs] == Take(before + src, len)
  {
    var k := 0;
    ofs := from;
    while k < |src| && ofs < len
      invariant k <= |src| && ofs <= len
      invariant s[..ofs] == Take(before + src[..k], len)
    {
      ghost var done := s[..ofs];
      s[ofs] := src[k];
      assert s[..ofs] == done;
      assert before + src[..k + 1] == before + src[..k] + [src[k]];
      assert s[..ofs + 1] == done + [src[k]];
      k, ofs := k + 1, ofs + 1;
    }
    assert before + src == before + src[..k] + src[k..];
  }
}
