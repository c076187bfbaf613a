/**
 * The layout layer of the terminal interface: components append their text to the
 * lines of a shared buffer of strings and hand back the part of the buffer below
 * them; a box component draws a frame around another component; the controls panel
 * measures its multi-line text.
 */
module Tui {
  import opened Game

  function Min(a: int, b: int): int {
    if a < b then a else b
  }

  function Max(a: int, b: int): int {
    if a < b then b else a
  }

  // ---------------------------------------------------------------------------
  // Multi-line text: pieces between '\n', Rust's `str::lines`, and the two
  // measurements `Controls::WIDTH` and `Controls::HEIGHT`.
  // ---------------------------------------------------------------------------

  /** The index of the first '\n' in `t`, or |t| when there is none. */
  function NewlineAt(t: string): (i: nat)
    ensures i <= |t|
  {
    if |t| == 0 then 0 else if t[0] == '\n' then 0 else 1 + NewlineAt(t[1..])
  }

  /** `NewlineAt` finds the first '\n'. */
  lemma {:induction false} NewlineAtFirst(t: string)
    ensures NewlineAt(t) < |t| ==> t[NewlineAt(t)] == '\n'
    ensures forall k :: 0 <= k < NewlineAt(t) ==> t[k] != '\n'
    decreases |t|
  {
    if |t| > 0 && t[0] != '\n' {
      NewlineAtFirst(t[1..]);
    }
  }

  /** The pieces of `t` between its '\n' characters (a text without '\n' is one piece). */
  function Segments(t: string): (ss: seq<string>)
    ensures |ss| >= 1
    decreases |t|
  {
    var i := NewlineAt(t);
    if i == |t| then [t] else [t[..i]] + Segments(t[i + 1..])
  }

  /** The number of characters of `s` other than '\r'. */
  function NonCR(s: string): (n: nat)
    ensures n <= |s|
  {
    if |s| == 0 then 0 else (if s[0] == '\r' then 0 else 1) + NonCR(s[1..])
  }

  function MaxNonCR(ss: seq<string>): nat {
    if |ss| == 0 then 0 else Max(NonCR(ss[0]), MaxNonCR(ss[1..]))
  }

  /** What `Controls::WIDTH` measures: the widest piece, '\r' not counted. */
  function TextWidth(t: string): nat {
    MaxNonCR(Segments(t))
  }

  /** What `Controls::HEIGHT` measures: the number of pieces, and 0 for the empty text. */
  function TextHeight(t: string): nat {
    if |t| == 0 then 0 else |Segments(t)|
  }

  function StripCR(s: string): string {
    if |s| > 0 && s[|s| - 1] == '\r' then s[..|s| - 1] else s
  }

  /**
   * Rust's `str::lines`: `t` split at '\n', each line without its "\n" or "\r\n"
   * ending; a final line ending adds no empty line.
   */
  function Lines(t: string): (ls: seq<string>)
    ensures |t| > 0 <==> |ls| > 0
    ensures forall k :: 0 <= k < |ls| ==> '\n' !in ls[k]
    decreases |t|
  {
    if |t| == 0 then []
    else
      var i := NewlineAt(t);
      NewlineAtFirst(t);
      if i == |t| then [t] else [StripCR(t[..i])] + Lines(t[i + 1..])
  }

  /** Reading one more character in front of a text extends its first piece or opens a new one. */
  lemma SegmentsCons(c: char, u: string)
    ensures c == '\n' ==> Segments([c] + u) == [[]] + Segments(u)
    ensures c != '\n' ==> Segments([c] + u) == [[c] + Segments(u)[0]] + Segments(u)[1..]
  {
    var t := [c] + u;
    assert t[1..] == u;
    if c == '\n' {
      assert t[..0] == [];
    } else {
      var j := NewlineAt(u);
      if j < |u| {
        assert t[..j + 1] == [c] + u[..j];
        assert t[j + 2..] == u[j + 1..];
      }
    }
  }

  /**
   * The width `Controls::WIDTH` ends with when, having kept `longest` and counted
   * `current` characters of the open piece, the text `u` is still to be read.
   */
  function Pending(longest: nat, current: nat, u: string): nat {
    var ss := Segments(u);
    Max(longest, Max(current + NonCR(ss[0]), MaxNonCR(ss[1..])))
  }

  lemma PendingStep(longest: nat, current: nat, c: char, u: string)
    ensures c == '\n' ==> Pending(Max(longest, current), 0, u) == Pending(longest, current, [c] + u)
    ensures c != '\n' ==> Pending(longest, current + (if c == '\r' then 0 else 1), u) == Pending(longest, current, [c] + u)
  {
    SegmentsCons(c, u);
    var ss := Segments(u);
    if c == '\n' {
      assert ([[]] + ss)[1..] == ss;
      assert MaxNonCR(ss) == Max(NonCR(ss[0]), MaxNonCR(ss[1..]));
    } else {
      assert ([[c] + ss[0]] + ss[1..])[1..] == ss[1..];
      assert ([c] + ss[0])[1..] == ss[0];
    }
  }

  /** The loop of `Controls::WIDTH`, run over any text. */
  method MeasureWidth(t: string) returns (w: nat)
    ensures w == TextWidth(t)
  {
    var longest, current := 0, 0;
    var i := 0;
    assert t[0..] == t;
    while i < |t|
      invariant 0 <= i <= |t|
      invariant Pending(longest, current, t[i..]) == TextWidth(t)
    {
      assert t[i..] == [t[i]] + t[i + 1..];
      PendingStep(longest, current, t[i], t[i + 1..]);
      if t[i] == '\n' {
        if current > longest {
          longest := current;
        }
        current := 0;
      } else if t[i] != '\r' {
        current := current + 1;
      }
      i := i + 1;
    }
    assert |t[i..]| == 0;
    w := if current > longest then current else longest;
  }

  /** The loop of `Controls::HEIGHT`, run over any text. */
  method MeasureHeight(t: string) returns (h: nat)
    ensures h == TextHeight(t)
  {
    var count := if |t| == 0 then 0 else 1;
    var i := 0;
    while i < |t|
      invariant 0 <= i <= |t|
      invariant count + |Segments(t[i..])| == TextHeight(t) + 1
    {
      assert t[i..] == [t[i]] + t[i + 1..];
      SegmentsCons(t[i], t[i + 1..]);
      if t[i] == '\n' {
        count := count + 1;
      }
      i := i + 1;
    }
    assert t[i..] == [];
    h := count;
  }

  /**
   * `str::lines` yields one line per piece, except that a text ending in '\n' yields
   * one fewer: `HEIGHT` overcounts the lines such a text renders.
   */
  lemma {:induction false} LinesHeight(t: string)
    ensures |Lines(t)| + (if |t| > 0 && t[|t| - 1] == '\n' then 1 else 0) == TextHeight(t)
    decreases |t|
  {
    if |t| > 0 {
      NewlineAtFirst(t);
      if NewlineAt(t) < |t| {
        var u := t[NewlineAt(t) + 1..];
        SplitStep(t);
        if |u| > 0 {
          LinesHeight(u);
          assert u[|u| - 1] == t[|t| - 1];
        }
      }
    }
  }

  /** Past the first '\n', both the pieces and the lines go on with the rest of the text. */
  lemma SplitStep(t: string)
    requires NewlineAt(t) < |t|
    ensures |Segments(t)| == 1 + |Segments(t[NewlineAt(t) + 1..])|
    ensures |Lines(t)| == 1 + |Lines(t[NewlineAt(t) + 1..])|
  {
  }

  /**
   * `str::lines` line by line: line `k` is piece `k` with a '\r' before its '\n'
   * stripped; the last piece is kept whole and is a line unless it is empty because
   * the text is empty or ends in '\n'.
   */
  lemma {:induction false} LinesAreSegments(t: string)
    ensures var ss, ended := Segments(t), |t| == 0 || t[|t| - 1] == '\n';
            && |Lines(t)| == (if ended then |ss| - 1 else |ss|)
            && (forall k :: 0 <= k < |ss| - 1 ==> Lines(t)[k] == StripCR(ss[k]))
            && (!ended ==> Lines(t)[|ss| - 1] == ss[|ss| - 1])
    decreases |t|
  {
    if |t| > 0 {
      NewlineAtFirst(t);
      var i := NewlineAt(t);
      if i < |t| {
        var u := t[i + 1..];
        LinesAreSegments(u);
        var ended := |u| == 0 || u[|u| - 1] == '\n';
        assert ended == (t[|t| - 1] == '\n') by {
          if |u| > 0 {
            assert u[|u| - 1] == t[|t| - 1];
          }
        }
        LinesConsPiece(t[..i], Segments(u), Lines(u), ended);
      }
    }
  }

  /** One piece in front of the pieces and its line in front of the lines keep them in step. */
  lemma LinesConsPiece(p: string, ss: seq<string>, ls: seq<string>, ended: bool)
    requires |ss| >= 1 && |ls| == (if ended then |ss| - 1 else |ss|)
    requires forall k :: 0 <= k < |ss| - 1 ==> ls[k] == StripCR(ss[k])
    requires !ended ==> ls[|ss| - 1] == ss[|ss| - 1]
    ensures var ss', ls' := [p] + ss, [StripCR(p)] + ls;
            && |ls'| == (if ended then |ss'| - 1 else |ss'|)
            && (forall k :: 0 <= k < |ss'| - 1 ==> ls'[k] == StripCR(ss'[k]))
            && (!ended ==> ls'[|ss'| - 1] == ss'[|ss'| - 1])
  {
    var ss', ls' := [p] + ss, [StripCR(p)] + ls;
    forall k | 0 <= k < |ss'| - 1
      ensures ls'[k] == StripCR(ss'[k])
    {
      if k > 0 {
        assert ls'[k] == ls[k - 1] && ss'[k] == ss[k - 1];
      }
    }
  }

  /** A "\r\n" ending is stripped, a final line needs no ending, and a lone final '\r' stays. */
  lemma LinesExamples()
    ensures Lines("a\r\nb\n") == ["a", "b"]
    ensures Lines("abc\r") == ["abc\r"]
  {
    var t, u := "a\r\nb\n", "b\n";
    NewlineAtFirst(t);
    assert t[0] != '\n' && t[1] != '\n' && t[2] == '\n';
    assert NewlineAt(t) == 2;
    assert t[..2] == "a\r" && t[3..] == u;
    assert StripCR("a\r") == "a";
    NewlineAtFirst(u);
    assert u[0] != '\n' && u[1] == '\n';
    assert NewlineAt(u) == 1;
    assert u[..1] == "b" && u[2..] == "";
    assert StripCR("b") == "b";
    assert Lines(u) == ["b"];
    var v := "abc\r";
    NewlineAtFirst(v);
    assert v[0] != '\n' && v[1] != '\n' && v[2] != '\n' && v[3] != '\n';
    assert NewlineAt(v) == |v|;
  }

  lemma {:induction false} NonCRPrefix(s: string)
    requires |s| > 0
    ensures NonCR(s[..|s| - 1]) <= NonCR(s)
  {
    if |s| > 1 {
      NonCRPrefix(s[1..]);
      assert s[..|s| - 1][1..] == s[1..][..|s[1..]| - 1];
    }
  }

  /** Every line the text renders is at most `WIDTH` wide, '\r' not counted. */
  lemma {:induction false} LinesWithinWidth(t: string)
    ensures forall k :: 0 <= k < |Lines(t)| ==> NonCR(Lines(t)[k]) <= TextWidth(t)
    decreases |t|
  {
    if |t| > 0 {
      var i := NewlineAt(t);
      if i < |t| {
        var seg := t[..i];
        if |seg| > 0 {
          NonCRPrefix(seg);
        }
        LinesWithinWidth(t[i + 1..]);
        assert Segments(t) == [seg] + Segments(t[i + 1..]);
        assert Segments(t)[1..] == Segments(t[i + 1..]);
      }
    }
  }

  // ---------------------------------------------------------------------------
  // Components.
  // ---------------------------------------------------------------------------

  /** `Controls::TEXT`. */
  const ControlsText: string := "test"

  /** The controls text is one line of four characters. */
  lemma ControlsMeasures()
    ensures Lines(ControlsText) == [ControlsText]
    ensures TextWidth(ControlsText) == 4 && TextHeight(ControlsText) == 1
  {
    assert NewlineAt(ControlsText[3..]) == 1;
    assert NewlineAt(ControlsText[2..]) == 2;
    assert NewlineAt(ControlsText[1..]) == 3;
    assert NewlineAt(ControlsText) == 4;
    assert NonCR(ControlsText[3..]) == 1;
    assert NonCR(ControlsText[2..]) == 2;
    assert NonCR(ControlsText[1..]) == 3;
  }

  /**
   * The implementors of `Component`: a box around another component, the minefield
   * (shown through its cells), the controls panel with its text (`ControlsText` in
   * the program), and the title. The title's width and height measure its FIGlet
   * banner, which is not part of this model; they are carried as data.
   */
  datatype Component =
    | Boxed(inner: Component)
    | FieldView(grid: Grid)
    | Controls(text: string)
    | Title(text: string, bannerWidth: nat, bannerHeight: nat)

  /**
   * `Component::width`. A box is at least two columns wide (its corners); the controls
   * panel is as wide as the widest piece of its text.
   */
  function Width(c: Component): (w: nat)
    ensures c.Boxed? ==> w >= 2
    ensures c.Controls? ==> forall k :: 0 <= k < |Segments(c.text)| ==> NonCR(Segments(c.text)[k]) <= w
  {
    match c
    case Boxed(inner) => Width(inner) + 2
    case FieldView(g) => if |g| == 0 then 0 else |g[0]|
    case Controls(text) => MaxNonCRIsMax(Segments(text)); TextWidth(text)
    case Title(_, w, _) => w
  }

  /**
   * `Component::height`. A box is at least two lines tall (its borders); the controls
   * panel counts the '\n' characters of its text, plus one for a nonempty text.
   */
  function Height(c: Component): (h: nat)
    ensures c.Boxed? ==> h >= 2
    ensures c.Controls? ==> h == Newlines(c.text) + (if |c.text| == 0 then 0 else 1)
  {
    match c
    case Boxed(inner) => Height(inner) + 2
    case FieldView(g) => |g|
    case Controls(text) => SegmentsCount(text); TextHeight(text)
    case Title(_, _, h) => h
  }

  function Repeat(ch: char, n: nat): (s: string)
    ensures |s| == n && forall k :: 0 <= k < n ==> s[k] == ch
  {
    seq(n, _ => ch)
  }

  function TopBorder(w: nat): string {
    Edge('╭', w, '╮')
  }

  function BottomBorder(w: nat): string {
    Edge('╰', w, '╯')
  }

  /** `left`, then `w` copies of `'─'`, then `right`. */
  function Edge(left: char, w: nat, right: char): string {
    seq(w + 2, k requires 0 <= k < w + 2 => if k == 0 then left else if k == w + 1 then right else '─')
  }

  /** A border line is its left corner, `w` copies of `'─'`, then its right corner. */
  lemma EdgeIs(left: char, w: nat, right: char)
    ensures Edge(left, w, right) == [left] + Repeat('─', w) + [right]
  {
    assert Edge(left, w, right) == [left] + Repeat('─', w) + [right];
  }

  const Bar: string := ['│']

  /** The side bar, once per line of `n` lines. */
  function Bars(n: nat): (r: seq<string>)
    ensures |r| == n && forall k :: 0 <= k < n ==> r[k] == Bar
  {
    seq(n, _ => Bar)
  }

  /** Row `k` of the minefield as glyphs, or nothing past the last row. */
  function FieldLine(g: Grid, k: nat): string {
    if k < |g| then RowText(g[k]) else ""
  }

  /** The `k`-th line of text a component lists, or nothing past its last line. */
  function LineOr(ls: seq<string>, k: nat): string {
    if k < |ls| then ls[k] else ""
  }

  /** What `render_at` appends to each line of a buffer of `n` lines. */
  function Added(c: Component, n: nat): (r: seq<string>)
    ensures |r| == n
    decreases c, 0
  {
    match c
    case Boxed(inner) =>
      if n == 0 then [] else BoxDrawn(Height(inner), Width(inner), Added(inner, Min(n, Height(inner) + 1) - 1), n)
    case FieldView(g) => seq(n, k requires 0 <= k < n => FieldLine(g, k))
    case Controls(text) => seq(n, k requires 0 <= k < n => LineOr(Lines(text), k))
    case Title(text, _, _) => seq(n, k requires 0 <= k < n => LineOr(Lines(text), k))
  }

  /**
   * What a box of inner height `h` and inner width `w` appends to `n` lines, its inner
   * component having appended `body` to the lines that fit: the top border, then a bar
   * on each side of every inner line, then the bottom border when there is room for
   * it, and nothing below.
   */
  function BoxDrawn(h: nat, w: nat, body: seq<string>, n: nat): (r: seq<string>)
    requires 1 <= n && |body| == Min(n, h + 1) - 1
    ensures |r| == n
  {
    [TopBorder(w)] + Barred(body) + BoxFoot(h, w, n)
  }

  /** The lines of a box below its inner lines: the bottom border if it fits, then blanks. */
  function BoxFoot(h: nat, w: nat, n: nat): (r: seq<string>)
    ensures |r| == if n > h + 1 then n - h - 1 else 0
  {
    if n > h + 1 then [BottomBorder(w)] + Blanks(n - h - 2) else []
  }

  /** `n` empty strings: lines a component leaves alone. */
  function Blanks(n: nat): (r: seq<string>)
    ensures |r| == n && forall k :: 0 <= k < n ==> |r[k]| == 0
  {
    seq(n, _ => "")
  }

  /** A bar on each side of every line of `body`. */
  function Barred(body: seq<string>): (r: seq<string>)
    ensures |r| == |body|
  {
    if |body| == 0 then [] else Barred(body[..|body| - 1]) + [Bar + body[|body| - 1] + Bar]
  }

  lemma {:induction false} BarredAt(body: seq<string>)
    ensures forall k :: 0 <= k < |body| ==> Barred(body)[k] == Bar + body[k] + Bar
  {
    if |body| > 0 {
      BarredAt(body[..|body| - 1]);
      assert body[..|body| - 1] + [body[|body| - 1]] == body;
    }
  }

  /**
   * Where the slice `render_at` returns starts, counted from the start of the `n`-line
   * buffer it was given. A box returns the whole buffer unless it leaves lines below
   * its bottom border.
   */
  function Consumed(c: Component, n: nat): (r: nat)
    ensures r <= n
  {
    match c
    case Boxed(inner) => if n < 1 || n <= Height(inner) + 2 then 0 else Height(inner) + 2
    case FieldView(g) => Min(n, |g|)
    case Controls(text) => Min(n, TextHeight(text))
    case Title(text, _, _) => Min(n, |Lines(text)|)
  }

  /**
   * The buffer `a` with `add[k]` appended to line `from + k` for every `k`, and every
   * other line as it was.
   */
  function Appended(a: seq<string>, from: nat, add: seq<string>): (b: seq<string>)
    requires from + |add| <= |a|
    ensures |b| == |a|
  {
    if |add| == 0 then a
    else Appended(a, from, add[..|add| - 1])[from + |add| - 1 := a[from + |add| - 1] + add[|add| - 1]]
  }

  /** Line `j` of `Appended(a, from, add)`. */
  lemma {:induction false} AppendedAt(a: seq<string>, from: nat, add: seq<string>)
    requires from + |add| <= |a|
    ensures forall j :: 0 <= j < |a| ==>
              Appended(a, from, add)[j] == if from <= j < from + |add| then a[j] + add[j - from] else a[j]
  {
    if |add| > 0 {
      AppendedAt(a, from, add[..|add| - 1]);
    }
  }

  /** A line past the appended ones is as it was. */
  lemma {:induction false} AppendedBeyond(a: seq<string>, from: nat, add: seq<string>, j: nat)
    requires from + |add| <= j < |a|
    ensures Appended(a, from, add)[j] == a[j]
    decreases |add|
  {
    if |add| > 0 {
      AppendedBeyond(a, from, add[..|add| - 1], j);
    }
  }

  /**
   * `Component::render_at` on the slice `buf[lo..hi]`: appends `Added(c, hi - lo)` to
   * the lines of the slice, leaves every other line alone, and returns where the
   * remaining slice starts (it always ends at `hi`).
   */
  method RenderAt(c: Component, buf: array<string>, lo: nat, hi: nat) returns (rest: nat)
    requires lo <= hi <= buf.Length
    modifies buf
    ensures buf[..] == Appended(old(buf[..]), lo, Added(c, hi - lo))
    ensures rest == lo + Consumed(c, hi - lo)
    decreases c, 4
  {
    match c
    case Boxed(inner) =>
      rest := RenderBoxed(inner, buf, lo, hi);
    case FieldView(g) =>
      rest := RenderField(g, buf, lo, hi);
    case Controls(text) =>
      rest := RenderControls(text, buf, lo, hi);
    case Title(text, bannerWidth, bannerHeight) =>
      rest := RenderTitle(text, bannerWidth, bannerHeight, buf, lo, hi);
  }

  /**
   * Appends `add[k]` to line `lo + k` of the buffer, zipping the buffer with the lines
   * to add (every `render_at` writes its lines this way).
   */
  method AppendLines(buf: array<string>, lo: nat, add: seq<string>)
    requires lo + |add| <= buf.Length
    modifies buf
    ensures buf[..] == Appended(old(buf[..]), lo, add)
  {
    var k := 0;
    while k < |add|
      invariant 0 <= k <= |add|
      invariant buf[..] == Appended(old(buf[..]), lo, add[..k])
    {
      AppendedBeyond(old(buf[..]), lo, add[..k], lo + k);
      assert add[..k + 1][..k] == add[..k];
      buf[lo + k] := buf[lo + k] + add[k];
      k := k + 1;
    }
    assert add[..k] == add;
  }

  /** Appending nothing more to the lines past `add` is appending the empty string there. */
  lemma Padded(a: seq<string>, from: nat, add: seq<string>, full: seq<string>)
    requires from + |full| <= |a| && |add| <= |full|
    requires forall k :: 0 <= k < |add| ==> full[k] == add[k]
    requires forall k :: |add| <= k < |full| ==> |full[k]| == 0
    ensures Appended(a, from, add) == Appended(a, from, full)
  {
    assert full == add + Blanks(|full| - |add|);
    AppendedSplit(a, from, add, Blanks(|full| - |add|));
    AppendedBlanks(Appended(a, from, add), from + |add|, |full| - |add|);
  }

  /** Lines `x[k] + y[k]`. */
  function Zip(x: seq<string>, y: seq<string>): (r: seq<string>)
    requires |x| == |y|
    ensures |r| == |x|
  {
    seq(|x|, k requires 0 <= k < |x| => x[k] + y[k])
  }

  /** Appending `x` and then `y` to the same lines appends their line-by-line joins. */
  lemma {:induction false} AppendedTwice(a: seq<string>, from: nat, x: seq<string>, y: seq<string>)
    requires |x| == |y| && from + |x| <= |a|
    ensures Appended(Appended(a, from, x), from, y) == Appended(a, from, Zip(x, y))
    decreases |x|
  {
    if |x| > 0 {
      var m := |x| - 1;
      var b := Appended(a, from, x[..m]);
      var v := a[from + m] + x[m];
      AppendedPast(b, from, y[..m], from + m, v);
      AppendedTwice(a, from, x[..m], y[..m]);
      assert Zip(x, y)[..m] == Zip(x[..m], y[..m]);
      JoinedAt(Appended(a, from, Zip(x[..m], y[..m])), from + m, a[from + m], x, y, m);
    }
  }

  /** Joining `x[m]` and `y[m]` onto one line in two steps or in one. */
  lemma JoinedAt(r: seq<string>, k: nat, s: string, x: seq<string>, y: seq<string>, m: nat)
    requires k < |r| && m < |x| == |y|
    ensures r[k := s + x[m] + y[m]] == r[k := s + Zip(x, y)[m]]
  {
    assert s + x[m] + y[m] == s + (x[m] + y[m]);
  }

  /** Changing a line past the appended ones commutes with appending. */
  lemma {:induction false} AppendedPast(a: seq<string>, from: nat, add: seq<string>, k: nat, v: string)
    requires from + |add| <= k < |a|
    ensures Appended(a[k := v], from, add) == Appended(a, from, add)[k := v]
    decreases |add|
  {
    if |add| > 0 {
      AppendedPast(a, from, add[..|add| - 1], k, v);
    }
  }

  /** Appending `x + y` appends `x`, then `y` to the lines after those of `x`. */
  lemma {:induction false} AppendedSplit(a: seq<string>, from: nat, x: seq<string>, y: seq<string>)
    requires from + |x| + |y| <= |a|
    ensures Appended(a, from, x + y) == Appended(Appended(a, from, x), from + |x|, y)
    decreases |y|
  {
    if |y| == 0 {
      assert x + y == x;
    } else {
      AppendedSplit(a, from, x, y[..|y| - 1]);
      assert (x + y)[..|x + y| - 1] == x + y[..|y| - 1];
      AppendedBeyond(a, from, x, from + |x| + |y| - 1);
    }
  }

  /** Appending blank lines changes nothing. */
  lemma {:induction false} AppendedBlanks(a: seq<string>, from: nat, m: nat)
    requires from + m <= |a|
    ensures Appended(a, from, Blanks(m)) == a
    decreases m
  {
    if m > 0 {
      AppendedBlanks(a, from, m - 1);
      assert Blanks(m)[..m - 1] == Blanks(m - 1);
      KeptAt(a, from + m - 1, Blanks(m)[m - 1]);
    }
  }

  /** Appending an empty string to a line leaves the buffer as it was. */
  lemma KeptAt(a: seq<string>, k: nat, t: string)
    requires k < |a| && |t| == 0
    ensures a[k := a[k] + t] == a
  {
    assert a[k] + t == a[k];
  }

  /** Bars, then the inner lines, then bars again, appended to the same lines, make `Barred`. */
  lemma BarsAround(a: seq<string>, from: nat, body: seq<string>)
    requires from + |body| <= |a|
    ensures Appended(Appended(Appended(a, from, Bars(|body|)), from, body), from, Bars(|body|)) == Appended(a, from, Barred(body))
  {
    AppendedTwice(a, from, Bars(|body|), body);
    AppendedTwice(a, from, Zip(Bars(|body|), body), Bars(|body|));
    BarredAt(body);
    assert Zip(Zip(Bars(|body|), body), Bars(|body|)) == Barred(body);
  }

  /**
   * What a box appends below its top border, line by line as `render_at` writes it: the
   * barred inner lines from line `lo + 1`, then the bottom border if the buffer is long
   * enough.
   */
  function BoxTail(b: seq<string>, lo: nat, h: nat, w: nat, body: seq<string>, n: nat): (r: seq<string>)
    requires 1 <= n && lo + n <= |b| && |body| == Min(n, h + 1) - 1
    ensures |r| == |b|
  {
    if n > h + 1 then Appended(Appended(b, lo + 1, Barred(body)), lo + h + 1, [BottomBorder(w)])
    else Appended(b, lo + 1, Barred(body))
  }

  /** The top border, the barred inner lines and the bottom border make what a box adds. */
  lemma BoxAssembled(h: nat, w: nat, body: seq<string>, n: nat, lo: nat, a: seq<string>)
    requires 1 <= n && lo + n <= |a| && |body| == Min(n, h + 1) - 1
    ensures BoxTail(Appended(a, lo, [TopBorder(w)]), lo, h, w, body, n) == Appended(a, lo, BoxDrawn(h, w, body, n))
  {
    var t := Appended(a, lo, [TopBorder(w)]);
    var b2 := Appended(t, lo + 1, Barred(body));
    DrawnStacked(h, w, body, n, lo, a);
    if n > h + 1 {
      BoxAssembledWhole(t, b2, h, w, body, n, lo);
    } else {
      BoxAssembledCut(t, b2, h, w, body, n, lo);
    }
  }

  /** A box whose bottom border fits in the slice. */
  lemma BoxAssembledWhole(t: seq<string>, b2: seq<string>, h: nat, w: nat, body: seq<string>, n: nat, lo: nat)
    requires h + 1 < n && lo + n <= |t| && |body| == h && b2 == Appended(t, lo + 1, Barred(body))
    ensures BoxTail(t, lo, h, w, body, n) == Appended(b2, lo + 1 + |body|, BoxFoot(h, w, n))
  {
    FootAppended(b2, lo + 1 + |body|, h, w, n);
  }

  /** A box cut off before its bottom border. */
  lemma BoxAssembledCut(t: seq<string>, b2: seq<string>, h: nat, w: nat, body: seq<string>, n: nat, lo: nat)
    requires 1 <= n <= h + 1 && lo + n <= |t| && |body| == n - 1 && b2 == Appended(t, lo + 1, Barred(body))
    ensures BoxTail(t, lo, h, w, body, n) == Appended(b2, lo + 1 + |body|, BoxFoot(h, w, n))
  {
    FootAppended(b2, lo + 1 + |body|, h, w, n);
  }

  /** Appending what a box adds appends its top border, then its barred lines, then its foot. */
  lemma DrawnStacked(h: nat, w: nat, body: seq<string>, n: nat, lo: nat, a: seq<string>)
    requires 1 <= n && lo + n <= |a| && |body| == Min(n, h + 1) - 1
    ensures Appended(a, lo, BoxDrawn(h, w, body, n))
         == Appended(Appended(Appended(a, lo, [TopBorder(w)]), lo + 1, Barred(body)), lo + 1 + |body|, BoxFoot(h, w, n))
  {
    assert BoxDrawn(h, w, body, n) == [TopBorder(w)] + Barred(body) + BoxFoot(h, w, n);
    Stacked(a, lo, [TopBorder(w)], Barred(body), BoxFoot(h, w, n));
  }

  /** Appending the foot of a box puts the bottom border on its line when it fits, and nothing otherwise. */
  lemma FootAppended(b: seq<string>, from: nat, h: nat, w: nat, n: nat)
    requires from + |BoxFoot(h, w, n)| <= |b|
    ensures Appended(b, from, BoxFoot(h, w, n)) == if n > h + 1 then Appended(b, from, [BottomBorder(w)]) else b
  {
    if n > h + 1 {
      HeadAppended(b, from, BottomBorder(w), n - h - 2);
    } else {
      assert Appended(b, from, []) == b;
    }
  }

  /** Appending three runs of lines one after the other appends their concatenation. */
  lemma Stacked(a: seq<string>, from: nat, x: seq<string>, y: seq<string>, z: seq<string>)
    requires from + |x| + |y| + |z| <= |a|
    ensures Appended(a, from, x + y + z) == Appended(Appended(Appended(a, from, x), from + |x|, y), from + |x| + |y|, z)
  {
    AppendedSplit(a, from, x, y);
    AppendedSplit(a, from, x + y, z);
  }

  /** Appending one line followed by blanks appends that one line. */
  lemma HeadAppended(a: seq<string>, from: nat, t: string, m: nat)
    requires from + 1 + m <= |a|
    ensures Appended(a, from, [t] + Blanks(m)) == Appended(a, from, [t])
  {
    AppendedSplit(a, from, [t], Blanks(m));
    AppendedBlanks(Appended(a, from, [t]), from + 1, m);
  }

  /** The side bars of a box around the `count` lines its inner component renders from line `from`. */
  method RenderBarred(inner: Component, buf: array<string>, from: nat, count: nat)
    requires from + count <= buf.Length
    modifies buf
    ensures buf[..] == Appended(old(buf[..]), from, Barred(Added(inner, count)))
    decreases Boxed(inner), 0
  {
    ghost var a := buf[..];
    AppendLines(buf, from, Bars(count));
    ghost var withBars := buf[..];
    var _ := RenderAt(inner, buf, from, from + count);
    assert from + count - from == count;
    ghost var withBody := buf[..];
    AppendLines(buf, from, Bars(count));
    BarsAroundChain(a, withBars, withBody, buf[..], from, Added(inner, count));
  }

  /** `BarsAround`, for the three states a box's interior goes through. */
  lemma BarsAroundChain(a: seq<string>, withBars: seq<string>, withBody: seq<string>, done: seq<string>, from: nat, body: seq<string>)
    requires from + |body| <= |a|
    requires withBars == Appended(a, from, Bars(|body|))
    requires withBody == Appended(withBars, from, body)
    requires done == Appended(withBody, from, Bars(|body|))
    ensures done == Appended(a, from, Barred(body))
  {
    BarsAround(a, from, body);
  }

  /**
   * The part of `BoxedComponent::render_at` after the top border: the framed inner
   * lines, then the bottom border when the slice has room for it.
   */
  method RenderBoxBody(inner: Component, h: nat, w: nat, buf: array<string>, lo: nat, n: nat)
    requires h == Height(inner) && w == Width(inner)
    requires 1 <= n && lo + n <= buf.Length
    modifies buf
    ensures buf[..] == BoxTail(old(buf[..]), lo, h, w, Added(inner, Min(n, h + 1) - 1), n)
    decreases Boxed(inner), 1
  {
    var count := Min(n, h + 1) - 1;
    ghost var a := buf[..];
    RenderBarred(inner, buf, lo + 1, count);
    RenderBottom(buf, lo, h, w, n);
    BoxTailSplit(a, lo, h, w, Added(inner, count), n);
  }

  /** The bottom border of a box with inner height `h`, drawn only when the slice of `n` lines reaches it. */
  method RenderBottom(buf: array<string>, lo: nat, h: nat, w: nat, n: nat)
    requires lo + n <= buf.Length
    modifies buf
    ensures buf[..] == if n > h + 1 then Appended(old(buf[..]), lo + h + 1, [BottomBorder(w)]) else old(buf[..])
  {
    if n > h + 1 {
      AppendLines(buf, lo + h + 1, [BottomBorder(w)]);
    }
  }

  lemma BoxTailSplit(a: seq<string>, lo: nat, h: nat, w: nat, body: seq<string>, n: nat)
    requires 1 <= n && lo + n <= |a| && |body| == Min(n, h + 1) - 1
    ensures var b := Appended(a, lo + 1, Barred(body));
            BoxTail(a, lo, h, w, body, n) == if n > h + 1 then Appended(b, lo + h + 1, [BottomBorder(w)]) else b
  {
  }

  lemma AddedBoxed(inner: Component, h: nat, w: nat, n: nat)
    requires h == Height(inner) && w == Width(inner) && 1 <= n
    ensures Added(Boxed(inner), n) == BoxDrawn(h, w, Added(inner, Min(n, h + 1) - 1), n)
  {
  }

  /** A box in a slice of `n >= 1` lines: top border, framed inner lines, bottom border. */
  method RenderBoxDrawn(inner: Component, buf: array<string>, lo: nat, n: nat)
    requires 1 <= n && lo + n <= buf.Length
    modifies buf
    ensures buf[..] == Appended(old(buf[..]), lo, Added(Boxed(inner), n))
    decreases Boxed(inner), 2
  {
    var h, w := Height(inner), Width(inner);
    ghost var body := Added(inner, Min(n, h + 1) - 1);
    ghost var a := buf[..];
    BoxAssembled(h, w, body, n, lo, a);
    AddedBoxed(inner, h, w, n);
    AppendLines(buf, lo, [TopBorder(w)]);
    ghost var t := buf[..];
    RenderBoxBody(inner, h, w, buf, lo, n);
    assert buf[..] == BoxTail(t, lo, h, w, body, n);
  }

  /** `BoxedComponent::render_at`: the box when the slice has a line, and the slice it returns. */
  method RenderBoxed(inner: Component, buf: array<string>, lo: nat, hi: nat) returns (rest: nat)
    requires lo <= hi <= buf.Length
    modifies buf
    ensures buf[..] == Appended(old(buf[..]), lo, Added(Boxed(inner), hi - lo))
    ensures rest == lo + Consumed(Boxed(inner), hi - lo)
    decreases Boxed(inner), 3
  {
    if hi - lo < 1 {
      assert Appended(buf[..], lo, []) == buf[..];
      rest := lo;
    } else {
      RenderBoxDrawn(inner, buf, lo, hi - lo);
      rest := if hi - lo <= Height(inner) + 2 then lo else lo + Height(inner) + 2;
    }
  }

  /** `render_at` of the minefield: row `k` of glyphs goes onto line `k`. */
  method RenderField(g: Grid, buf: array<string>, lo: nat, hi: nat) returns (rest: nat)
    requires lo <= hi <= buf.Length
    modifies buf
    ensures buf[..] == Appended(old(buf[..]), lo, Added(FieldView(g), hi - lo))
    ensures rest == lo + Consumed(FieldView(g), hi - lo)
  {
    var m := Min(hi - lo, |g|);
    var rows := seq(m, k requires 0 <= k < m => RowText(g[k]));
    Padded(buf[..], lo, rows, Added(FieldView(g), hi - lo));
    AppendLines(buf, lo, rows);
    rest := lo + m;
  }

  /** `Title::render_at`: the lines of the text, then the slice after the lines written. */
  method RenderTitle(text: string, bannerWidth: nat, bannerHeight: nat, buf: array<string>, lo: nat, hi: nat)
    returns (rest: nat)
    requires lo <= hi <= buf.Length
    modifies buf
    ensures buf[..] == Appended(old(buf[..]), lo, Added(Title(text, bannerWidth, bannerHeight), hi - lo))
    ensures rest == lo + Consumed(Title(text, bannerWidth, bannerHeight), hi - lo)
  {
    var ls := Lines(text);
    var count := Min(hi - lo, |ls|);
    Padded(buf[..], lo, ls[..count], Added(Title(text, bannerWidth, bannerHeight), hi - lo));
    AppendLines(buf, lo, ls[..count]);
    rest := lo + Min(hi - lo, count);
  }

  /** `Controls::render_at`: the controls text, then the slice after `HEIGHT` lines. */
  method RenderControls(text: string, buf: array<string>, lo: nat, hi: nat) returns (rest: nat)
    requires lo <= hi <= buf.Length
    modifies buf
    ensures buf[..] == Appended(old(buf[..]), lo, Added(Controls(text), hi - lo))
    ensures rest == lo + Consumed(Controls(text), hi - lo)
  {
    var ls := Lines(text);
    var count := Min(hi - lo, |ls|);
    Padded(buf[..], lo, ls[..count], Added(Controls(text), hi - lo));
    AppendLines(buf, lo, ls[..count]);
    var height := MeasureHeight(text);
    rest := lo + Min(hi - lo, height);
  }

  // ---------------------------------------------------------------------------
  // What the components promise, stated on the specification functions.
  // ---------------------------------------------------------------------------

  /** A box is two columns wider and two lines taller than what it frames. */
  lemma BoxedSize(inner: Component)
    ensures Width(Boxed(inner)) == Width(inner) + 2
    ensures Height(Boxed(inner)) == Height(inner) + 2
  {
  }

  /**
   * Line by line, what a box around `inner`, of inner height `h` and inner width `w`,
   * appends to a slice of `n >= 1` lines: the top border on line 0; on each line from
   * 1 up to `min(n, h + 1) - 1` a bar, the inner component's line and another bar; the
   * bottom border on line `h + 1` when the slice reaches it; nothing below.
   */
  lemma BoxedLines(inner: Component, h: nat, w: nat, n: nat)
    requires h == Height(inner) && w == Width(inner) && 1 <= n
    ensures var m := Min(n, h + 1);
            && Added(Boxed(inner), n)[0] == ['╭'] + Repeat('─', w) + ['╮']
            && (forall k :: 1 <= k < m ==> Added(Boxed(inner), n)[k] == Bar + Added(inner, m - 1)[k - 1] + Bar)
            && (n > h + 1 ==> Added(Boxed(inner), n)[h + 1] == ['╰'] + Repeat('─', w) + ['╯'])
            && (forall k :: h + 2 <= k < n ==> Added(Boxed(inner), n)[k] == "")
  {
    AddedBoxed(inner, h, w, n);
    BoxDrawnAt(Added(Boxed(inner), n), h, w, Added(inner, Min(n, h + 1) - 1), n);
  }

  /** `BoxDrawn` line by line. */
  lemma BoxDrawnAt(r: seq<string>, h: nat, w: nat, body: seq<string>, n: nat)
    requires 1 <= n && |body| == Min(n, h + 1) - 1 && r == BoxDrawn(h, w, body, n)
    ensures |r| == n
    ensures var m := Min(n, h + 1);
            && r[0] == ['╭'] + Repeat('─', w) + ['╮']
            && (forall k :: 1 <= k < m ==> r[k] == Bar + body[k - 1] + Bar)
            && (n > h + 1 ==> r[h + 1] == ['╰'] + Repeat('─', w) + ['╯'])
            && (forall k :: h + 2 <= k < n ==> r[k] == "")
  {
    var foot := BoxFoot(h, w, n);
    BarredAt(body);
    EdgeIs('╭', w, '╮');
    assert r == [TopBorder(w)] + Barred(body) + foot;
    forall k | 1 <= k <= |body| ensures r[k] == Bar + body[k - 1] + Bar {
      assert r[k] == Barred(body)[k - 1];
    }
    if n > h + 1 {
      EdgeIs('╰', w, '╯');
      assert |body| == h;
      assert r[h + 1] == foot[0];
      forall k | h + 2 <= k < n ensures r[k] == "" {
        assert r[k] == foot[k - h - 1];
      }
    }
  }

  /**
   * The slice a box hands back: the lines below its bottom border when there are any;
   * otherwise (no line, or no line below the box) the whole slice it was given.
   */
  lemma BoxedRest(inner: Component, n: nat)
    ensures n > Height(inner) + 2 ==> Consumed(Boxed(inner), n) == Height(inner) + 2
    ensures n <= Height(inner) + 2 ==> Consumed(Boxed(inner), n) == 0
    ensures n == 0 ==> Added(Boxed(inner), n) == []
  {
  }

  /**
   * The minefield component: row `k` of glyphs on line `k` for the rows that fit, the
   * slice after them handed back, as wide as its first row and as tall as its rows.
   */
  lemma FieldViewLines(g: Grid, n: nat)
    ensures forall k :: 0 <= k < n ==> Added(FieldView(g), n)[k] == if k < |g| then RowText(g[k]) else ""
    ensures Consumed(FieldView(g), n) == if n < |g| then n else |g|
    ensures Width(FieldView(g)) == (if |g| == 0 then 0 else |g[0]|) && Height(FieldView(g)) == |g|
  {
  }

  /** The controls panel: line `k` of its text on line `k`, and the slice after `HEIGHT` lines handed back. */
  lemma ControlsLines(text: string, n: nat)
    ensures forall k :: 0 <= k < n ==> Added(Controls(text), n)[k] == if k < |Lines(text)| then Lines(text)[k] else ""
    ensures Consumed(Controls(text), n) == Min(n, TextHeight(text))
    ensures Width(Controls(text)) == TextWidth(text) && Height(Controls(text)) == TextHeight(text)
  {
  }

  /** The title: line `k` of its text on line `k` for as many lines as both have, and the slice after them. */
  lemma TitleLines(text: string, bannerWidth: nat, bannerHeight: nat, n: nat)
    ensures forall k :: 0 <= k < n ==>
              Added(Title(text, bannerWidth, bannerHeight), n)[k] == if k < |Lines(text)| then Lines(text)[k] else ""
    ensures Consumed(Title(text, bannerWidth, bannerHeight), n) == Min(n, |Lines(text)|)
  {
  }

  /** The number of '\n' characters in `t`. */
  function Newlines(t: string): (n: nat)
    ensures n <= |t|
  {
    if |t| == 0 then 0 else (if t[0] == '\n' then 1 else 0) + Newlines(t[1..])
  }

  /** A text has one piece more than it has '\n' characters. */
  lemma {:induction false} SegmentsCount(t: string)
    ensures |Segments(t)| == Newlines(t) + 1
    decreases |t|
  {
    if |t| > 0 {
      assert t == [t[0]] + t[1..];
      SegmentsCons(t[0], t[1..]);
      SegmentsCount(t[1..]);
    }
  }

  /** `Controls::HEIGHT` counts the '\n' characters, plus one for a nonempty text. */
  lemma TextHeightCounts(t: string)
    ensures TextHeight(t) == Newlines(t) + (if |t| == 0 then 0 else 1)
  {
    SegmentsCount(t);
  }

  /** The pieces rejoined with '\n' between them. */
  function JoinLines(ss: seq<string>): string
    requires |ss| >= 1
  {
    if |ss| == 1 then ss[0] else ss[0] + "\n" + JoinLines(ss[1..])
  }

  /** `Segments` is the split at '\n': no piece holds one, and rejoining gives the text back. */
  lemma {:induction false} SegmentsJoin(t: string)
    ensures JoinLines(Segments(t)) == t
    ensures forall k, j :: 0 <= k < |Segments(t)| && 0 <= j < |Segments(t)[k]| ==> Segments(t)[k][j] != '\n'
    decreases |t|
  {
    var i := NewlineAt(t);
    NewlineAtFirst(t);
    if i < |t| {
      var u := t[i + 1..];
      SegmentsJoin(u);
      assert Segments(t) == [t[..i]] + Segments(u);
      assert t == t[..i] + "\n" + u;
      JoinConsPiece(t[..i], Segments(u));
    }
  }

  /** A piece without '\n' in front of pieces without '\n' joins in front of their join. */
  lemma JoinConsPiece(p: string, ss: seq<string>)
    requires |ss| >= 1
    requires forall j :: 0 <= j < |p| ==> p[j] != '\n'
    requires forall k, j :: 0 <= k < |ss| && 0 <= j < |ss[k]| ==> ss[k][j] != '\n'
    ensures JoinLines([p] + ss) == p + "\n" + JoinLines(ss)
    ensures forall k, j :: 0 <= k < |ss| + 1 && 0 <= j < |([p] + ss)[k]| ==> ([p] + ss)[k][j] != '\n'
  {
    assert ([p] + ss)[1..] == ss;
    forall k, j | 0 <= k < |ss| + 1 && 0 <= j < |([p] + ss)[k]| ensures ([p] + ss)[k][j] != '\n' {
      if k > 0 {
        assert ([p] + ss)[k] == ss[k - 1];
      }
    }
  }

  /** `MaxNonCR` is the largest count of a piece, and some piece attains it. */
  lemma {:induction false} MaxNonCRIsMax(ss: seq<string>)
    ensures forall k :: 0 <= k < |ss| ==> NonCR(ss[k]) <= MaxNonCR(ss)
    ensures |ss| > 0 ==> exists k :: 0 <= k < |ss| && NonCR(ss[k]) == MaxNonCR(ss)
  {
    if |ss| > 0 {
      MaxNonCRIsMax(ss[1..]);
      forall k | 0 <= k < |ss| ensures NonCR(ss[k]) <= MaxNonCR(ss) {
        if k > 0 {
          assert ss[k] == ss[1..][k - 1];
        }
      }
      if MaxNonCR(ss) != NonCR(ss[0]) {
        var k :| 0 <= k < |ss[1..]| && NonCR(ss[1..][k]) == MaxNonCR(ss[1..]);
        assert NonCR(ss[k + 1]) == MaxNonCR(ss);
      }
    }
  }

  /** `Controls::WIDTH` is the widest piece of the text, '\r' not counted. */
  lemma TextWidthIsWidest(t: string)
    ensures forall k :: 0 <= k < |Segments(t)| ==> NonCR(Segments(t)[k]) <= TextWidth(t)
    ensures exists k :: 0 <= k < |Segments(t)| && NonCR(Segments(t)[k]) == TextWidth(t)
  {
    MaxNonCRIsMax(Segments(t));
  }
}
