/**
 * Removal of terminal colour codes from one report cell, as done by the
 * global replace of the pattern ESC '[' digit+ 'm' with the empty string
 * (src/handlers/handleFinish.ts:36).
 *
 * The pattern is modelled as a hand-written scanner: starting at the left,
 * a colour code that begins at the current position is dropped as a whole,
 * otherwise the current character is kept and the scan moves on by one.
 * This is how a global, left-to-right, non-overlapping replace behaves.
 */
module AnsiStrip {

  /** The escape character U+001B that opens every colour code. */
  const ESC: char := '\U{1B}'

  /** The regular-expression class `\d`: ASCII digits only. */
  predicate IsDigit(c: char) {
    '0' <= c <= '9'
  }

  /** `e` is, in its entirety, one colour code ESC '[' digit+ 'm'. */
  predicate IsColourCode(e: seq<char>) {
    && |e| >= 4
    && e[0] == ESC
    && e[1] == '['
    && e[|e| - 1] == 'm'
    && forall k :: 2 <= k < |e| - 1 ==> IsDigit(e[k])
  }

  /** Length of the run of digits that `s` starts with. */
  function DigitRun(s: seq<char>): (n: nat)
    ensures n <= |s|
    ensures forall k :: 0 <= k < n ==> IsDigit(s[k])
    ensures n < |s| ==> !IsDigit(s[n])
  {
    if s != [] && IsDigit(s[0]) then 1 + DigitRun(s[1..]) else 0
  }

  /**
   * Length of the colour code that `s` starts with, or 0 when it starts
   * with none. There is at most one such prefix, and this is it.
   */
  function CodeLength(s: seq<char>): (n: nat)
    ensures n <= |s|
    ensures n > 0 ==> IsColourCode(s[..n])
  {
    if |s| >= 2 && s[0] == ESC && s[1] == '[' then
      var d := DigitRun(s[2..]);
      if d > 0 && 2 + d < |s| && s[2 + d] == 'm' then
        assert IsColourCode(s[..3 + d]);
        3 + d
      else
        0
    else
      0
  }

  /** A prefix of `s` is a colour code exactly when its length is `CodeLength(s)`. */
  lemma CodeLengthExact(s: seq<char>, j: nat)
    requires 0 < j <= |s|
    ensures IsColourCode(s[..j]) <==> j == CodeLength(s)
  {
    if IsColourCode(s[..j]) {
      var d := DigitRun(s[2..]);
      assert forall k :: 2 <= k < j - 1 ==> IsDigit(s[k]) by {
        assert forall k :: 2 <= k < j - 1 ==> s[..j][k] == s[k];
      }
      assert !IsDigit(s[j - 1]) by { assert s[..j][j - 1] == 'm'; }
      assert d == j - 3;
    }
  }

  /**
   * The cell with every colour code found by a left-to-right scan removed.
   * It is never longer than the cell, and a cell without any ESC character
   * comes back unchanged.
   */
  function Strip(s: seq<char>): (r: seq<char>)
    ensures |r| <= |s|
    ensures ESC !in s ==> r == s
    decreases |s|
  {
    if s == [] then []
    else
      var n := CodeLength(s);
      if n > 0 then Strip(s[n..]) else [s[0]] + Strip(s[1..])
  }

  // ---------------------------------------------------------------------
  // An independent description of the scan: a cell split into segments.

  /** One piece of a cell: a kept character or a removed colour code. */
  datatype Segment = Kept(c: char) | Removed(code: seq<char>)

  /** The text the segments were cut from. */
  function Text(segs: seq<Segment>): seq<char> {
    if segs == [] then []
    else
      match segs[0]
      case Kept(c) => [c] + Text(segs[1..])
      case Removed(code) => code + Text(segs[1..])
  }

  /** The characters of the kept segments, in order. */
  function KeptText(segs: seq<Segment>): seq<char> {
    if segs == [] then []
    else
      match segs[0]
      case Kept(c) => [c] + KeptText(segs[1..])
      case Removed(_) => KeptText(segs[1..])
  }

  /** No colour code at all starts at the front of `s`. */
  predicate NoCodeAtFront(s: seq<char>) {
    forall j :: 0 < j <= |s| ==> !IsColourCode(s[..j])
  }

  /**
   * `segs` cuts `s` the way a leftmost, non-overlapping scan does: every
   * removed segment is a whole colour code taken from the front of what is
   * left, and a character is kept only where no colour code starts.
   */
  predicate LeftmostCut(s: seq<char>, segs: seq<Segment>)
    decreases |segs|
  {
    if segs == [] then s == []
    else
      match segs[0]
      case Kept(c) =>
        s != [] && s[0] == c && NoCodeAtFront(s) && LeftmostCut(s[1..], segs[1..])
      case Removed(code) =>
        IsColourCode(code) && code <= s && LeftmostCut(s[|code|..], segs[1..])
  }

  /** A leftmost cut is a cut: its segments put back together give the cell. */
  lemma {:induction false} LeftmostCutCovers(s: seq<char>, segs: seq<Segment>)
    requires LeftmostCut(s, segs)
    ensures Text(segs) == s
    decreases |segs|
  {
    if segs != [] {
      match segs[0]
      case Kept(c) =>
        LeftmostCutCovers(s[1..], segs[1..]);
        assert Text(segs) == [c] + s[1..];
        assert s == [s[0]] + s[1..];
      case Removed(code) =>
        LeftmostCutCovers(s[|code|..], segs[1..]);
        assert Text(segs) == code + s[|code|..];
        assert s[..|code|] == code;
        assert s == s[..|code|] + s[|code|..];
    }
  }

  /** The first segment of a leftmost cut is a removed code exactly when a code starts the cell. */
  lemma LeftmostCutFront(s: seq<char>, segs: seq<Segment>)
    requires LeftmostCut(s, segs) && segs != []
    ensures segs[0].Removed? <==> CodeLength(s) > 0
    ensures segs[0].Removed? ==> segs[0].code == s[..CodeLength(s)]
    ensures segs[0].Kept? ==> segs[0].c == s[0]
  {
    match segs[0]
    case Kept(c) =>
      if CodeLength(s) > 0 { CodeLengthExact(s, CodeLength(s)); }
    case Removed(code) =>
      assert s[..|code|] == code;
      CodeLengthExact(s, |code|);
  }

  /**
   * Stripping a cell leaves exactly the kept characters of a leftmost cut,
   * in order.
   */
  lemma {:induction false} StripKeepsExactlyTheKept(s: seq<char>, segs: seq<Segment>)
    requires LeftmostCut(s, segs)
    ensures Strip(s) == KeptText(segs)
    decreases |segs|
  {
    if segs != [] {
      LeftmostCutFront(s, segs);
      match segs[0]
      case Kept(c) =>
        StripKeepsExactlyTheKept(s[1..], segs[1..]);
      case Removed(code) =>
        StripKeepsExactlyTheKept(s[|code|..], segs[1..]);
    }
  }

  /** The scan itself, recorded as segments. */
  function Cut(s: seq<char>): (segs: seq<Segment>)
    ensures LeftmostCut(s, segs)
    decreases |s|
  {
    if s == [] then []
    else
      var n := CodeLength(s);
      if n > 0 then
        assert s[..n] <= s;
        [Removed(s[..n])] + Cut(s[n..])
      else
        assert NoCodeAtFront(s);
        [Kept(s[0])] + Cut(s[1..])
  }

  /** There is only one leftmost cut of a cell. */
  lemma {:induction false} LeftmostCutUnique(s: seq<char>, a: seq<Segment>, b: seq<Segment>)
    requires LeftmostCut(s, a) && LeftmostCut(s, b)
    ensures a == b
    decreases |a|
  {
    if a != [] && b != [] {
      LeftmostCutFront(s, a);
      LeftmostCutFront(s, b);
      assert a[0] == b[0];
      match a[0]
      case Kept(_) =>
        LeftmostCutUnique(s[1..], a[1..], b[1..]);
      case Removed(code) =>
        LeftmostCutUnique(s[|code|..], a[1..], b[1..]);
      assert a == [a[0]] + a[1..] && b == [b[0]] + b[1..];
    }
  }

  // ---------------------------------------------------------------------
  // When stripping changes a cell.

  /** Some colour code starts at position `i` of `s`. */
  predicate CodeAt(s: seq<char>, i: nat) {
    i <= |s| && CodeLength(s[i..]) > 0
  }

  /**
   * Stripping shortens a cell exactly when a colour code starts somewhere in
   * it, and otherwise leaves it unchanged.
   */
  lemma {:induction false} StripChangesIffCode(s: seq<char>)
    ensures (exists i: nat :: CodeAt(s, i)) <==> |Strip(s)| < |s|
    ensures (forall i: nat :: !CodeAt(s, i)) <==> Strip(s) == s
    decreases |s|
  {
    if s == [] {
      assert forall i: nat :: !CodeAt(s, i);
    } else {
      var n := CodeLength(s);
      assert s[0..] == s;
      if n > 0 {
        assert CodeAt(s, 0);
        assert |Strip(s)| <= |s| - n;
      } else {
        StripChangesIffCode(s[1..]);
        assert forall i: nat :: 1 <= i ==> (CodeAt(s, i) <==> CodeAt(s[1..], i - 1)) by {
          forall i: nat | 1 <= i
            ensures CodeAt(s, i) <==> CodeAt(s[1..], i - 1)
          {
            if i <= |s| { assert s[i..] == s[1..][i - 1..]; }
          }
        }
        if exists i: nat :: CodeAt(s, i) {
          var i: nat :| CodeAt(s, i);
          assert CodeAt(s[1..], i - 1);
        }
        if exists i: nat :: CodeAt(s[1..], i) {
          var i: nat :| CodeAt(s[1..], i);
          assert CodeAt(s, i + 1);
        }
      }
    }
  }

  // ---------------------------------------------------------------------
  // Characters that cannot belong to a colour code survive, in order.

  /** ESC, '[', the digits and 'm': the only characters a colour code holds. */
  predicate InCodeAlphabet(c: char) {
    c == ESC || c == '[' || c == 'm' || IsDigit(c)
  }

  /** The characters of `s` that no colour code can contain, in order. */
  function Plain(s: seq<char>): seq<char> {
    if s == [] then []
    else if InCodeAlphabet(s[0]) then Plain(s[1..])
    else [s[0]] + Plain(s[1..])
  }

  lemma {:induction false} PlainAppend(a: seq<char>, b: seq<char>)
    ensures Plain(a + b) == Plain(a) + Plain(b)
    decreases |a|
  {
    if a == [] {
      assert a + b == b;
    } else {
      assert (a + b)[0] == a[0];
      assert (a + b)[1..] == a[1..] + b;
      PlainAppend(a[1..], b);
    }
  }

  lemma {:induction false} PlainOfCode(e: seq<char>)
    requires forall k :: 0 <= k < |e| ==> InCodeAlphabet(e[k])
    ensures Plain(e) == []
    decreases |e|
  {
    if e != [] { PlainOfCode(e[1..]); }
  }

  /** Stripping never loses, adds or reorders a character outside the code alphabet. */
  lemma {:induction false} StripKeepsPlain(s: seq<char>)
    ensures Plain(Strip(s)) == Plain(s)
    decreases |s|
  {
    if s != [] {
      var n := CodeLength(s);
      if n > 0 {
        assert IsColourCode(s[..n]);
        PlainOfCode(s[..n]);
        assert s == s[..n] + s[n..];
        PlainAppend(s[..n], s[n..]);
        StripKeepsPlain(s[n..]);
      } else {
        assert s == [s[0]] + s[1..];
        PlainAppend([s[0]], s[1..]);
        PlainAppend([s[0]], Strip(s[1..]));
        StripKeepsPlain(s[1..]);
      }
    }
  }

  // ---------------------------------------------------------------------
  // One step of the scan.

  /** A colour code at the front of a cell disappears as a whole. */
  lemma StripDropsCode(e: seq<char>, t: seq<char>)
    requires IsColourCode(e)
    ensures Strip(e + t) == Strip(t)
  {
    assert (e + t)[..|e|] == e;
    CodeLengthExact(e + t, |e|);
    assert (e + t)[|e|..] == t;
  }

  /** A character other than ESC is always kept, in front of what follows it. */
  lemma StripKeepsNonEsc(c: char, t: seq<char>)
    requires c != ESC
    ensures Strip([c] + t) == [c] + Strip(t)
  {
  }

  // ---------------------------------------------------------------------
  // Concrete cells.

  /** Text wrapped in a colour code and a reset code comes back without either. */
  lemma StripWrappedText(open: seq<char>, w: seq<char>, close: seq<char>)
    requires IsColourCode(open) && IsColourCode(close) && ESC !in w
    ensures Strip(open + w + close) == w
  {
    StripWrappedTextTail(w, close);
    assert open + w + close == open + (w + close);
    StripDropsCode(open, w + close);
  }

  /** Text without ESC, followed by a colour code, keeps only the text. */
  lemma {:induction false} StripWrappedTextTail(w: seq<char>, close: seq<char>)
    requires IsColourCode(close) && ESC !in w
    ensures Strip(w + close) == w
    decreases |w|
  {
    if w == [] {
      assert w + close == close + [];
      StripDropsCode(close, []);
    } else {
      assert w + close == [w[0]] + (w[1..] + close);
      StripKeepsNonEsc(w[0], w[1..] + close);
      StripWrappedTextTail(w[1..], close);
    }
  }

  /** A highlighted severity, as the terminal report prints it, loses its colour. */
  lemma StripColouredWord()
    ensures Strip([ESC, '[', '3', '1', 'm'] + "high" + [ESC, '[', '3', '9', 'm']) == "high"
  {
    StripWrappedText([ESC, '[', '3', '1', 'm'], "high", [ESC, '[', '3', '9', 'm']);
  }

  /** ESC '[' 'm' carries no digit, so it is not a colour code and stays. */
  lemma CodeWithoutDigitsKept()
    ensures Strip([ESC, '[', 'm']) == [ESC, '[', 'm']
  {
    var s := [ESC, '[', 'm'];
    assert s[2..][0] == 'm';
    assert CodeLength(s) == 0;
    assert ESC !in s[1..];
  }

  /** A code with a ';' between its numbers, as in ESC "[1;31m", stays whole. */
  lemma CodeWithSemicolonKept()
    ensures Strip([ESC, '[', '1', ';', '3', '1', 'm']) == [ESC, '[', '1', ';', '3', '1', 'm']
  {
    var s := [ESC, '[', '1', ';', '3', '1', 'm'];
    assert s[2..][1..][0] == ';';
    assert DigitRun(s[2..]) == 1;
    assert CodeLength(s) == 0;
    assert ESC !in s[1..];
  }

  /**
   * Stripping is a single pass and is not idempotent: a colour code placed
   * between ESC '[' and digits followed by 'm' is removed, and what remains
   * is a new colour code, which only a second strip removes.
   */
  lemma StripJoinsCode(c: seq<char>, d: seq<char>)
    requires IsColourCode(c)
    requires |d| > 0 && forall k :: 0 <= k < |d| ==> IsDigit(d[k])
    ensures Strip([ESC, '['] + c + d + ['m']) == [ESC, '['] + d + ['m']
    ensures IsColourCode([ESC, '['] + d + ['m'])
    ensures Strip(Strip([ESC, '['] + c + d + ['m'])) == []
  {
    var tail := d + ['m'];
    var joined := [ESC, '['] + tail;
    assert [ESC, '['] + d + ['m'] == joined;
    assert [ESC, '['] + c + d + ['m'] == [ESC, '['] + c + tail;
    assert ESC !in tail;
    StripAfterOpening(c, tail);
    assert IsColourCode(joined);
    StripDropsCode(joined, []);
    assert joined + [] == joined;
  }

  /** A colour code right after ESC '[' goes, and the ESC '[' before it stays. */
  lemma StripAfterOpening(c: seq<char>, tail: seq<char>)
    requires IsColourCode(c) && ESC !in tail
    ensures Strip([ESC, '['] + c + tail) == [ESC, '['] + tail
  {
    var s := [ESC, '['] + c + tail;
    assert CodeLength(s) == 0 by {
      assert s[2..][0] == ESC;
    }
    assert Strip(s) == [ESC] + Strip(['['] + (c + tail)) by {
      assert s[1..] == ['['] + (c + tail);
    }
    assert Strip(['['] + (c + tail)) == ['['] + tail by {
      StripKeepsNonEsc('[', c + tail);
      StripDropsCode(c, tail);
    }
  }

  /** The shortest instance: ESC '[' ESC "[1m" "1m" strips to ESC "[1m", which strips to nothing. */
  lemma StripNotIdempotent(digit: char)
    requires IsDigit(digit)
    ensures Strip([ESC, '[', ESC, '[', digit, 'm', digit, 'm']) == [ESC, '[', digit, 'm']
    ensures Strip(Strip([ESC, '[', ESC, '[', digit, 'm', digit, 'm'])) == []
  {
    var c := [ESC, '[', digit, 'm'];
    assert [ESC, '[', ESC, '[', digit, 'm', digit, 'm'] == [ESC, '['] + c + [digit] + ['m'];
    assert [ESC, '['] + [digit] + ['m'] == c;
    StripJoinsCode(c, [digit]);
  }
}
