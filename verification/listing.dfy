/**
 * The list view: one line per entry, `number | timestamp | preview`, with
 * `...` when the preview does not show the whole entry, followed by the
 * prompt that reads an entry number back.
 */
module ListScreen {
  import opened Wrappers
  import opened Entries
  import Numbers

  /** `max_characters`: the longest preview a list line shows. */
  const MaxPreview: nat := 50

  /** `content.split("\n")[0]`: the text before the first newline. */
  function FirstLine(c: string): (r: string)
    ensures |r| <= |c| && r == c[..|r|]
    ensures '\n' !in r
    ensures |r| < |c| ==> c[|r|] == '\n'
  {
    if |c| == 0 || c[0] == '\n' then []
    else
      var r := [c[0]] + FirstLine(c[1..]);
      assert forall i :: 1 <= i < |r| ==> r[i] == c[1..][i - 1];
      r
  }

  /** `split_content[0][:max_characters]`: the first line cut to 50 characters. */
  function Preview(c: string): (r: string)
    ensures |r| <= MaxPreview
    ensures |r| <= |c| && r == c[..|r|] && '\n' !in r
    ensures |r| < MaxPreview ==> r == FirstLine(c)
  {
    var f := FirstLine(c);
    if |f| <= MaxPreview then f else f[..MaxPreview]
  }

  /** The condition under which a list line ends in `...`. */
  predicate HasEllipsis(c: string) {
    |c| > MaxPreview || '\n' in c
  }

  /** The ellipsis appears exactly when the preview is not the whole entry. */
  lemma EllipsisMarksCut(c: string)
    ensures HasEllipsis(c) <==> Preview(c) != c
  {
  }

  /**
   * Measuring the whole content and measuring only its first line select the
   * same entries for an ellipsis, once multi-line content always gets one.
   */
  lemma EllipsisByFirstLine(c: string)
    ensures HasEllipsis(c) <==> |FirstLine(c)| > MaxPreview || '\n' in c
  {
  }

  /** What one list line shows. */
  datatype ListLine = ListLine(number: nat, stamp: string, preview: string, ellipsis: bool)

  /**
   * The lines printed for `shown`, numbered from 1; `stamp` stands for
   * `strftime("%d/%m/%Y %H:%M")`.
   */
  function Lines(shown: seq<Entry>, stamp: Timestamp -> string): (r: seq<ListLine>)
    ensures |r| == |shown|
    ensures forall i :: 0 <= i < |r| ==> r[i].number == i + 1
    ensures forall i :: 0 <= i < |r| ==> r[i].stamp == stamp(shown[i].ts)
    ensures forall i :: 0 <= i < |r| ==> r[i].preview == Preview(shown[i].content)
    ensures forall i :: 0 <= i < |r| ==> (r[i].ellipsis <==> r[i].preview != shown[i].content)
  {
    assert forall e :: e in shown ==> (HasEllipsis(e.content) <==> Preview(e.content) != e.content) by {
      forall e | e in shown
        ensures HasEllipsis(e.content) <==> Preview(e.content) != e.content
      {
        EllipsisMarksCut(e.content);
      }
    }
    seq(|shown|, i requires 0 <= i < |shown| =>
      var e := shown[i];
      ListLine(i + 1, stamp(e.ts), Preview(e.content), HasEllipsis(e.content)))
  }

  /**
   * The text of one line: `"{} | {} | {}"` then `...` or nothing. It opens
   * with the entry number and its separator, and it ends with `...` when the
   * preview was cut.
   */
  function Render(line: ListLine): (r: string)
    ensures var n := Numbers.Decimal(line.number);
      |n| + 3 <= |r| && r[..|n| + 3] == n + " | "
    ensures |r| == |Numbers.Decimal(line.number)| + |line.stamp| + |line.preview| + 6 + (if line.ellipsis then 3 else 0)
    ensures var n := Numbers.Decimal(line.number);
      var p := |n| + 3 + |line.stamp|;
      && p + 3 + |line.preview| <= |r|
      && r[|n| + 3..p] == line.stamp
      && r[p..p + 3] == " | "
      && r[p + 3..p + 3 + |line.preview|] == line.preview
    ensures line.ellipsis ==> r[|r| - 3..] == "..."
  {
    var n := Numbers.Decimal(line.number);
    var tail := if line.ellipsis then "..." else "";
    Layout(n, line.stamp, line.preview, tail);
    n + " | " + line.stamp + " | " + line.preview + tail
  }

  /** Where each field sits in `n | stamp | preview` followed by `tail`. */
  lemma Layout(n: string, stamp: string, preview: string, tail: string)
    ensures var r := n + " | " + stamp + " | " + preview + tail;
      var p := |n| + 3 + |stamp|;
      && |r| == p + 3 + |preview| + |tail|
      && r[..|n| + 3] == n + " | "
      && r[|n| + 3..p] == stamp
      && r[p..p + 3] == " | "
      && r[p + 3..p + 3 + |preview|] == preview
      && r[p + 3 + |preview|..] == tail
  {
    var h := n + " | ";
    var m := h + stamp;
    var m2 := m + " | ";
    var body := m2 + preview;
    var r := body + tail;
    Appended(n, " | ");
    Appended(h, stamp);
    Appended(m, " | ");
    Appended(m2, preview);
    Appended(body, tail);
    Within(body, tail, 0, |h|);
    Within(m2, preview, 0, |h|);
    Within(m, " | ", 0, |h|);
    Within(body, tail, |h|, |m|);
    Within(m2, preview, |h|, |m|);
    Within(m, " | ", |h|, |m|);
    Within(body, tail, |m|, |m2|);
    Within(m2, preview, |m|, |m2|);
    Within(body, tail, |m2|, |body|);
  }

  /** A slice inside the first part of a concatenation is a slice of that part. */
  lemma Within(x: string, y: string, i: nat, j: nat)
    requires i <= j <= |x|
    ensures (x + y)[i..j] == x[i..j]
  {
  }

  /** The two parts of a concatenation sit at their own positions. */
  lemma Appended(x: string, y: string)
    ensures (x + y)[..|x|] == x
    ensures (x + y)[|x|..|x| + |y|] == y
  {
  }

  /** The number of digits a line of text starts with: the entry number a reader sees. */
  function LeadingDigits(r: string): (n: nat)
    ensures n <= |r|
    ensures forall i :: 0 <= i < n ==> Numbers.IsDigit(r[i])
    ensures n == |r| || !Numbers.IsDigit(r[n])
  {
    if |r| > 0 && Numbers.IsDigit(r[0]) then
      var t := r[1..];
      var m := LeadingDigits(t);
      assert forall i :: 1 <= i < 1 + m ==> r[i] == t[i - 1];
      1 + m
    else
      0
  }

  /** The selection prompt: `int()` of the answer opens that entry when it lies in [1, count]. */
  function Select(shown: seq<Entry>, answer: string): (r: Option<Entry>)
    ensures r.Some? <==> Numbers.ParseInt(answer).Some? && 1 <= Numbers.ParseInt(answer).value <= |shown|
    ensures r.Some? ==> r.value == shown[Numbers.ParseInt(answer).value - 1]
  {
    var n := Numbers.ParseInt(answer);
    if n.Some? && 1 <= n.value <= |shown| then Some(shown[n.value - 1]) else None
  }

  /** Typing back the number `k` opens the `k`-th entry shown. */
  lemma SelectNumber(shown: seq<Entry>, k: nat)
    requires 1 <= k <= |shown|
    ensures Select(shown, Numbers.Decimal(k)) == Some(shown[k - 1])
  {
    Numbers.DecimalRoundTrip(k);
  }

  /** Typing back the number printed on line `k` opens the entry shown on line `k`. */
  lemma SelectPrintedNumber(shown: seq<Entry>, stamp: Timestamp -> string, k: nat)
    requires 1 <= k <= |shown|
    ensures Select(shown, Numbers.Decimal(Lines(shown, stamp)[k - 1].number)) == Some(shown[k - 1])
  {
    var lines := Lines(shown, stamp);
    assert lines[k - 1].number == k;
    SelectNumber(shown, k);
  }

  /**
   * The number at the head of the `k`-th printed line, typed back at the
   * prompt, opens the entry shown on that line.
   */
  lemma RenderedNumberSelects(shown: seq<Entry>, stamp: Timestamp -> string, k: nat)
    requires 1 <= k <= |shown|
    ensures var r := Render(Lines(shown, stamp)[k - 1]);
      Select(shown, r[..LeadingDigits(r)]) == Some(shown[k - 1])
  {
    var line := Lines(shown, stamp)[k - 1];
    assert line.number == k;
    var d := Numbers.Decimal(k);
    var r := Render(line);
    assert r[..|d| + 3] == d + " | ";
    assert r[|d|] == ' ';
    assert forall i :: 0 <= i < |d| ==> r[i] == d[i];
    var n := LeadingDigits(r);
    assert n == |d|;
    assert r[..n] == d;
    SelectNumber(shown, k);
  }

  /** An answer without a single digit never opens an entry. */
  lemma SelectNeedsDigit(shown: seq<Entry>, answer: string)
    requires forall c :: c in answer ==> !Numbers.IsDigit(c)
    ensures Select(shown, answer) == None
  {
    Numbers.ParseIntNeedsDigit(answer);
  }

  /** The first line of a text is everything before its first newline. */
  lemma FirstLineBeforeNewline(a: string, b: string)
    requires '\n' !in a
    ensures FirstLine(a + "\n" + b) == a
  {
    var c := a + "\n" + b;
    var r := FirstLine(c);
    assert c[|a|] == '\n';
    assert c[..|a|] == a;
  }

  /** The entry `Hello\nWorld` is previewed as its first line, with the ellipsis. */
  lemma HelloWorldPreview(c: string)
    requires c == "Hello\nWorld"
    ensures Preview(c) == "Hello" && HasEllipsis(c)
  {
    FirstLineBeforeNewline("Hello", "World");
    assert c == "Hello" + "\n" + "World";
  }

  /** The list line for the entry `Hello\nWorld`: its first line, then the ellipsis. */
  lemma HelloWorldLine(e: Entry, stamp: Timestamp -> string)
    requires e.content == "Hello\nWorld"
    ensures Render(Lines([e], stamp)[0]) == "1 | " + stamp(e.ts) + " | Hello..."
  {
    HelloWorldPreview(e.content);
    var line := Lines([e], stamp)[0];
    assert line == ListLine(1, stamp(e.ts), "Hello", true);
    RenderHello(stamp(e.ts));
  }

  /** Line 1 with the preview `Hello`, cut. */
  lemma RenderHello(st: string)
    ensures Render(ListLine(1, st, "Hello", true)) == "1 | " + st + " | Hello..."
  {
    var r := Render(ListLine(1, st, "Hello", true));
    assert r == Numbers.Decimal(1) + " | " + st + " | " + "Hello" + "...";
    assert Numbers.Decimal(1) + " | " == "1 | ";
    Regroup("1 | " + st, " | ", "Hello", "...");
    assert " | " + "Hello" + "..." == " | Hello...";
  }

  lemma Regroup(x: string, a: string, b: string, c: string)
    ensures x + a + b + c == x + (a + b + c)
  {
  }
}
