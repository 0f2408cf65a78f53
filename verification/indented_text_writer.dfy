/** `IndentedTextWriter`: builds a text buffer, indenting a line lazily on
    the first write after a newline. */
module IndentedTextWriter {

  /** The default unit of indentation: four spaces. */
  const DefaultTabString := "    "

  /** The writer's state: the text so far, the unit of indentation, the
      current indentation depth and whether the next write starts a line. */
  datatype Writer = Writer(buffer: string, tabString: string, indentCount: nat, needsIndent: bool)

  /** `count` copies of `s`, one after another. */
  function Repeat(s: string, count: nat): (r: string)
    ensures |r| == count * |s|
    decreases count
  {
    if count == 0 then "" else Repeat(s, count - 1) + s
  }

  /** The `k`-th block of `|s|` characters of `Repeat(s, count)` is `s`
      itself: the result is made of copies of `s` and nothing else. */
  lemma {:induction false} RepeatBlock(s: string, count: nat, k: nat)
    requires k < count
    ensures (k + 1) * |s| <= |Repeat(s, count)|
    ensures Repeat(s, count)[k * |s| .. (k + 1) * |s|] == s
    decreases count
  {
    var r, prev := Repeat(s, count), Repeat(s, count - 1);
    assert r == prev + s;
    MulSucc(k, |s|);
    if k == count - 1 {
      assert |prev| == k * |s|;
      assert r[|prev|..] == s;
    } else {
      RepeatBlock(s, count - 1, k);
      assert r[k * |s| .. (k + 1) * |s|] == prev[k * |s| .. (k + 1) * |s|];
    }
  }

  lemma MulSucc(k: nat, n: nat)
    ensures (k + 1) * n == k * n + n
  {
  }

  lemma {:induction false} RepeatAdd(s: string, a: nat, b: nat)
    ensures Repeat(s, a + b) == Repeat(s, a) + Repeat(s, b)
    decreases b
  {
    if b > 0 {
      RepeatAdd(s, a, b - 1);
      assert Repeat(s, a + b) == Repeat(s, a + b - 1) + s;
    }
  }

  /** The default constructor: an empty buffer, the default tab string and
      no indentation. `startOfLine` is the initial `needsIndent`, which the
      class declaration (not part of this model) sets. */
  function NewWriter(startOfLine: bool): (w: Writer)
    ensures w.buffer == "" && w.tabString == "    " && w.indentCount == 0
    ensures w.needsIndent == startOfLine
  {
    Writer("", DefaultTabString, 0, startOfLine)
  }

  /** The copy constructor: copies the tab string and the indentation depth
      but starts from an empty buffer. Like the default constructor it leaves
      `needsIndent` to the class declaration's initialiser, so callers pass
      the same `startOfLine` to both. */
  function CopyWriter(other: Writer, startOfLine: bool): (w: Writer)
    ensures w.buffer == ""
    ensures w.tabString == other.tabString && w.indentCount == other.indentCount
    ensures w.needsIndent == startOfLine
  {
    Writer("", other.tabString, other.indentCount, startOfLine)
  }

  /** `WriteIndent(count)`: append `count` copies of the tab string (none
      when `count` is not positive); nothing else changes. */
  function WriteIndentCount(w: Writer, count: int): (w2: Writer)
    ensures count <= 0 ==> w2 == w
    ensures count > 0 ==> w2 == w.(buffer := w.buffer + Repeat(w.tabString, count))
  {
    if count <= 0 then w else w.(buffer := w.buffer + Repeat(w.tabString, count))
  }

  /** `WriteIndent()`: at the start of a line, append the current
      indentation and mark the line as started; otherwise do nothing. */
  function WriteIndent(w: Writer): (w2: Writer)
    ensures !w2.needsIndent
    ensures w2.tabString == w.tabString && w2.indentCount == w.indentCount
    ensures w.needsIndent ==> w2.buffer == w.buffer + Repeat(w.tabString, w.indentCount)
    ensures !w.needsIndent ==> w2 == w
  {
    if w.needsIndent then WriteIndentCount(w, w.indentCount).(needsIndent := false) else w
  }

  /** `WriteNewLine()`: append one newline; the next write starts a line. */
  function WriteNewLine(w: Writer): (w2: Writer)
    ensures w2.buffer == w.buffer + "\n"
    ensures w2.needsIndent
    ensures w2.tabString == w.tabString && w2.indentCount == w.indentCount
  {
    w.(buffer := w.buffer + "\n", needsIndent := true)
  }

  /** `Write(value)` for strings and characters (the numeric overloads
      append their formatted text the same way): indent if at the start of a
      line, then append the text. */
  function Write(w: Writer, value: string): (w2: Writer)
    ensures !w2.needsIndent
    ensures w2.tabString == w.tabString && w2.indentCount == w.indentCount
    ensures w.needsIndent ==> w2.buffer == w.buffer + Repeat(w.tabString, w.indentCount) + value
    ensures !w.needsIndent ==> w2.buffer == w.buffer + value
  {
    var w1 := WriteIndent(w);
    w1.(buffer := w1.buffer + value)
  }

  /** `WriteRaw(value, indentCount)`: append `indentCount` tab strings (when
      positive) and then the text, ignoring the writer's own indentation and
      leaving `needsIndent` as it was. */
  function WriteRaw(w: Writer, value: string, indentCount: int): (w2: Writer)
    ensures w2.needsIndent == w.needsIndent
    ensures w2.tabString == w.tabString && w2.indentCount == w.indentCount
    ensures indentCount > 0 ==> w2.buffer == w.buffer + Repeat(w.tabString, indentCount) + value
    ensures indentCount <= 0 ==> w2.buffer == w.buffer + value
  {
    var w1 := if indentCount > 0 then WriteIndentCount(w, indentCount) else w;
    w1.(buffer := w1.buffer + value)
  }

  /** `IncreaseIndent()`: one level deeper; the buffer is untouched. */
  function IncreaseIndent(w: Writer): (w2: Writer)
    ensures w2.indentCount == w.indentCount + 1
    ensures w2.buffer == w.buffer && w2.tabString == w.tabString && w2.needsIndent == w.needsIndent
  {
    w.(indentCount := w.indentCount + 1)
  }

  /** `DecreaseIndent()`: one level shallower, but never below zero; the
      buffer is untouched. */
  function DecreaseIndent(w: Writer): (w2: Writer)
    ensures w.indentCount > 0 ==> w2.indentCount == w.indentCount - 1
    ensures w.indentCount == 0 ==> w2.indentCount == 0
    ensures w2.buffer == w.buffer && w2.tabString == w.tabString && w2.needsIndent == w.needsIndent
  {
    if w.indentCount > 0 then w.(indentCount := w.indentCount - 1) else w
  }

  // ---------------------------------------------------------------------------
  // Properties
  // ---------------------------------------------------------------------------

  /** Decreasing undoes increasing. */
  lemma DecreaseUndoesIncrease(w: Writer)
    ensures DecreaseIndent(IncreaseIndent(w)) == w
  {
  }

  /** Increasing undoes decreasing exactly when the depth was positive:
      decreasing saturates at zero. */
  lemma IncreaseUndoesDecreaseIffPositive(w: Writer)
    ensures IncreaseIndent(DecreaseIndent(w)) == w <==> w.indentCount > 0
  {
  }

  /** Two indents in a row append as many tab strings as one indent of the
      combined count. */
  lemma WriteIndentCountAdds(w: Writer, a: nat, b: nat)
    ensures WriteIndentCount(WriteIndentCount(w, a), b) == WriteIndentCount(w, a + b)
  {
    RepeatAdd(w.tabString, a, b);
  }

  /** Two writes in a row produce the same writer as one write of the joined
      text: only the first write of a line is indented. */
  lemma WriteConcat(w: Writer, a: string, b: string)
    ensures Write(Write(w, a), b) == Write(w, a + b)
  {
  }

  /** After a newline, the first write is indented by the current depth and
      the next one is not. */
  lemma OnlyFirstWriteAfterNewLineIndented(w: Writer, a: string, b: string)
    ensures Write(Write(WriteNewLine(w), a), b).buffer
         == w.buffer + "\n" + Repeat(w.tabString, w.indentCount) + a + b
  {
  }

  /** An indentation change between the newline and the first write takes
      effect on that line, since the indent is emitted only when text is
      written. */
  lemma IndentIsEmittedLazily(w: Writer, a: string)
    ensures Write(IncreaseIndent(WriteNewLine(w)), a).buffer
         == w.buffer + "\n" + Repeat(w.tabString, w.indentCount + 1) + a
  {
  }

  /** `WriteRaw` does not depend on the writer's depth: two writers that
      differ only in depth append the same text. */
  lemma WriteRawIgnoresDepth(w: Writer, depth: nat, value: string, indentCount: int)
    ensures WriteRaw(w.(indentCount := depth), value, indentCount).buffer == WriteRaw(w, value, indentCount).buffer
  {
  }
}
