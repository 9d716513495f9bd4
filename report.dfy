/**
 * The notification text built from one stats query: a timestamp line, then
 * one block per counter in the order the query listed them, each block
 * naming the user and traffic type, giving the data usage when the counter
 * has a value, and ending with a dashed separator line. The text sent is
 * that report with the surrounding whitespace stripped.
 */
module Report {
  import opened Wrappers
  import opened PyStr
  import opened StatName

  /** One decoded entry of the query's `stat` array: its name and, when present, its byte counter. */
  datatype StatItem = StatItem(name: string, value: Option<nat>)

  /** The `IndexError` that stops the script, with the position of the entry that raised it. */
  datatype ReportError = IndexError(item: nat, cause: FieldError)

  const Dashes: string := "----------------------------------------"
  const Separator: string := Dashes + "\n"

  /** The first line: the capture time. */
  function Header(timestamp: string): string {
    timestamp + "\n"
  }

  /** The data-usage line: empty for a counter without a value. */
  function UsageLine(value: Option<nat>, gb: nat -> string): string {
    match value
    case None => ""
    case Some(v) => "Data Usage: " + gb(v) + "GB"
  }

  /** The block one counter adds. */
  function Block(f: Fields, usage: string): string {
    var user := "User Name: " + f.user;
    var trafficType := "Traffic Type: " + f.trafficType;
    (user + " \n" + trafficType + " \n" + usage + "\n") + Separator
  }

  /** The block for one entry, or the lookup error its name raises. */
  function RenderItem(item: StatItem, gb: nat -> string): Result<string, FieldError> {
    match ParseName(item.name)
    case Err(e) => Err(e)
    case Ok(f) => Ok(Block(f, UsageLine(item.value, gb)))
  }

  /** The report after the entries `items` have been appended to the timestamp line, one at a time. */
  function Accumulate(timestamp: string, items: seq<StatItem>, gb: nat -> string): Result<string, ReportError>
    decreases |items|
  {
    if |items| == 0 then Ok(Header(timestamp))
    else
      match Accumulate(timestamp, items[..|items| - 1], gb)
      case Err(e) => Err(e)
      case Ok(content) =>
        match RenderItem(items[|items| - 1], gb)
        case Err(e) => Err(IndexError(|items| - 1, e))
        case Ok(block) => Ok(content + block)
  }

  /** The report for a query whose output is `stats`; None when the query command failed. */
  function Content(timestamp: string, stats: Option<seq<StatItem>>, gb: nat -> string): Result<string, ReportError> {
    match stats
    case None => Ok(Header(timestamp))
    case Some(items) => Accumulate(timestamp, items, gb)
  }

  /** The report loop: start from the timestamp line and append one block per entry. */
  method BuildContent(timestamp: string, stats: Option<seq<StatItem>>, gb: nat -> string)
    returns (r: Result<string, ReportError>)
    ensures r == Content(timestamp, stats, gb)
  {
    var content := "";
    content := content + timestamp + "\n";
    assert content == Header(timestamp);
    if stats.Some? {
      var items := stats.value;
      for i := 0 to |items|
        invariant Accumulate(timestamp, items[..i], gb) == Ok(content)
      {
        var item := items[i];
        var parts := Split(item.name, Delimiter);
        if |parts| < 2 {
          FailsAt(timestamp, items, gb, i);
          return Err(IndexError(i, UserIndexError));
        }
        var user := "User Name: " + parts[1];
        if |parts| < 4 {
          FailsAt(timestamp, items, gb, i);
          return Err(IndexError(i, TypeIndexError));
        }
        var trafficType := "Traffic Type: " + parts[3];
        var dataUsage: string;
        if item.value.Some? {
          dataUsage := "Data Usage: " + gb(item.value.value) + "GB";
        } else {
          dataUsage := "";
        }
        ghost var f := Fields(parts[1], parts[3]);
        AppendsBlock(timestamp, items, gb, i, content, f);
        BlockText(content, f, dataUsage);
        content := content + (user + " \n" + trafficType + " \n" + dataUsage + "\n") + Dashes + "\n";
      }
      assert items[..|items|] == items;
    }
    r := Ok(content);
  }

  /** One pass of the loop: the entry at `i` parses, and its block is appended. */
  lemma AppendsBlock(timestamp: string, items: seq<StatItem>, gb: nat -> string, i: nat, content: string, f: Fields)
    requires i < |items| && Accumulate(timestamp, items[..i], gb) == Ok(content)
    requires |Split(items[i].name, Delimiter)| >= 4
    requires f == Fields(Split(items[i].name, Delimiter)[1], Split(items[i].name, Delimiter)[3])
    ensures Accumulate(timestamp, items[..i + 1], gb) == Ok(content + Block(f, UsageLine(items[i].value, gb)))
  {
    assert ParseName(items[i].name) == Ok(f);
    assert items[..i + 1][..i] == items[..i];
  }

  /** The text the loop appends is the block. */
  lemma BlockText(content: string, f: Fields, usage: string)
    ensures content + ("User Name: " + f.user + " \n" + ("Traffic Type: " + f.trafficType) + " \n" + usage + "\n") + Dashes + "\n"
      == content + Block(f, usage)
  {
  }

  /** The message text: the report with leading and trailing whitespace removed. */
  function PayloadText(timestamp: string, stats: Option<seq<StatItem>>, gb: nat -> string): (r: Result<string, ReportError>)
    ensures r.Err? <==> Content(timestamp, stats, gb).Err?
    ensures r.Err? ==> r == Content(timestamp, stats, gb)
    ensures r.Ok? ==> r.value == [] || (r.value[0] !in Whitespace && r.value[|r.value| - 1] !in Whitespace)
    ensures r.Ok? ==> r.value == [] || r.value[|r.value| - 1] != '\n'
  {
    match Content(timestamp, stats, gb)
    case Err(e) => Err(e)
    case Ok(c) => Ok(Strip(c))
  }

  /**
   * The report fails exactly when some entry's name lacks a field, and then
   * with the error of the first such entry: every entry before it was
   * processed, and nothing after it was.
   */
  lemma {:induction false} FailsAtFirstBadEntry(timestamp: string, items: seq<StatItem>, gb: nat -> string)
    ensures match Accumulate(timestamp, items, gb)
      case Ok(_) => forall j :: 0 <= j < |items| ==> ParseName(items[j].name).Ok?
      case Err(IndexError(i, e)) =>
        i < |items| && ParseName(items[i].name) == Err(e)
        && forall j :: 0 <= j < i ==> ParseName(items[j].name).Ok?
    decreases |items|
  {
    if |items| > 0 {
      var init := items[..|items| - 1];
      FailsAtFirstBadEntry(timestamp, init, gb);
      assert forall j :: 0 <= j < |init| ==> init[j] == items[j];
    }
  }

  /** The entry at `i` stops the loop when every entry before it was processed and its own name lacks a field. */
  lemma FailsAt(timestamp: string, items: seq<StatItem>, gb: nat -> string, i: nat)
    requires i < |items| && Accumulate(timestamp, items[..i], gb).Ok?
    requires ParseName(items[i].name).Err?
    ensures Accumulate(timestamp, items, gb) == Err(IndexError(i, ParseName(items[i].name).error))
  {
    FailsAtFirstBadEntry(timestamp, items[..i], gb);
    FailsAtFirstBadEntry(timestamp, items, gb);
    assert forall j :: 0 <= j < i ==> items[..i][j] == items[j];
  }

  /**
   * Appending an entry never changes what is already there: the report for
   * a prefix of the entries is a prefix of the report for all of them, and
   * in particular every report starts with the timestamp line.
   */
  lemma {:induction false} EarlierContentIsKept(timestamp: string, items: seq<StatItem>, gb: nat -> string, i: nat)
    requires i <= |items| && Accumulate(timestamp, items, gb).Ok?
    ensures Accumulate(timestamp, items[..i], gb).Ok?
    ensures Accumulate(timestamp, items[..i], gb).value <= Accumulate(timestamp, items, gb).value
    decreases |items|
  {
    if i < |items| {
      var init := items[..|items| - 1];
      assert init[..i] == items[..i];
      EarlierContentIsKept(timestamp, init, gb, i);
    } else {
      assert items[..i] == items;
    }
  }

  /** Without stats output the report is the timestamp line alone; with it, it starts with that line. */
  lemma ContentStartsWithTimestampLine(timestamp: string, stats: Option<seq<StatItem>>, gb: nat -> string)
    ensures Content(timestamp, None, gb) == Ok(timestamp + "\n")
    ensures Content(timestamp, stats, gb).Ok? ==> timestamp + "\n" <= Content(timestamp, stats, gb).value
  {
    if stats.Some? && Accumulate(timestamp, stats.value, gb).Ok? {
      EarlierContentIsKept(timestamp, stats.value, gb, 0);
      assert stats.value[..0] == [];
    }
  }

  /** The block of one entry, empty when its name lacks a field. */
  function BlockOrEmpty(item: StatItem, gb: nat -> string): string {
    match RenderItem(item, gb)
    case Ok(b) => b
    case Err(_) => ""
  }

  /** The blocks of the entries, in input order. */
  function Blocks(items: seq<StatItem>, gb: nat -> string): (bs: seq<string>)
    ensures |bs| == |items|
    ensures forall i :: 0 <= i < |items| ==> bs[i] == BlockOrEmpty(items[i], gb)
  {
    seq(|items|, i requires 0 <= i < |items| => BlockOrEmpty(items[i], gb))
  }

  /** The strings of `bs` one after the other. */
  function Concat(bs: seq<string>): string
    decreases |bs|
  {
    if |bs| == 0 then "" else Concat(bs[..|bs| - 1]) + bs[|bs| - 1]
  }

  /** A successful report is the timestamp line followed by the blocks of the entries. */
  lemma {:induction false} ContentIsConcatOfBlocks(timestamp: string, items: seq<StatItem>, gb: nat -> string)
    requires Accumulate(timestamp, items, gb).Ok?
    ensures Accumulate(timestamp, items, gb).value == Header(timestamp) + Concat(Blocks(items, gb))
    decreases |items|
  {
    if |items| > 0 {
      var init := items[..|items| - 1];
      ContentIsConcatOfBlocks(timestamp, init, gb);
      var block := RenderItem(items[|items| - 1], gb).value;
      assert Accumulate(timestamp, items, gb).value == Accumulate(timestamp, init, gb).value + block;
      ConcatBlocksStep(items, gb);
      AppendAssoc(Header(timestamp), Concat(Blocks(init, gb)), block);
    }
  }

  /** The blocks of the entries are those of all but the last, then the last one's. */
  lemma ConcatBlocksStep(items: seq<StatItem>, gb: nat -> string)
    requires |items| > 0
    ensures Concat(Blocks(items, gb))
      == Concat(Blocks(items[..|items| - 1], gb)) + BlockOrEmpty(items[|items| - 1], gb)
  {
    var bs := Blocks(items, gb);
    assert bs[..|bs| - 1] == Blocks(items[..|items| - 1], gb);
  }

  lemma AppendAssoc(a: string, b: string, c: string)
    ensures (a + b) + c == a + (b + c)
  {
  }

  /**
   * A report that succeeds is the timestamp line followed by exactly one
   * block per entry, in input order, each the rendering of its entry.
   */
  lemma ContentIsHeaderThenBlocks(timestamp: string, items: seq<StatItem>, gb: nat -> string)
    requires Accumulate(timestamp, items, gb).Ok?
    ensures Accumulate(timestamp, items, gb).value == Header(timestamp) + Concat(Blocks(items, gb))
    ensures |Blocks(items, gb)| == |items|
    ensures forall i :: 0 <= i < |items| ==> RenderItem(items[i], gb) == Ok(Blocks(items, gb)[i])
  {
    ContentIsConcatOfBlocks(timestamp, items, gb);
    FailsAtFirstBadEntry(timestamp, items, gb);
  }

  /** Every block ends with the separator line. */
  lemma BlockEndsWithSeparator(f: Fields, usage: string)
    ensures var b := Block(f, usage);
      |b| >= |Separator| && b[|b| - |Separator|..] == Separator
  {
  }

  /**
   * A missing counter value is not an error: it only leaves the data-usage
   * line empty. With a value the line reads "Data Usage: <amount>GB".
   */
  lemma MissingValueLeavesUsageEmpty(name: string, v: nat, gb: nat -> string)
    ensures RenderItem(StatItem(name, None), gb).Ok? == RenderItem(StatItem(name, Some(v)), gb).Ok?
    ensures match ParseName(name)
      case Err(e) => RenderItem(StatItem(name, None), gb) == Err(e)
      case Ok(f) =>
        RenderItem(StatItem(name, None), gb) == Ok(Block(f, ""))
        && RenderItem(StatItem(name, Some(v)), gb) == Ok(Block(f, "Data Usage: " + gb(v) + "GB"))
  {
  }

  // ---------------------------------------------------------------------
  // The report as lines

  /** The lines `lines`, each followed by a newline. */
  function JoinLines(lines: seq<string>): string
    decreases |lines|
  {
    if |lines| == 0 then "" else lines[0] + "\n" + JoinLines(lines[1..])
  }

  /** The four lines of one block: user, traffic type, data usage, separator. */
  function ItemLines(f: Fields, usage: string): seq<string> {
    ["User Name: " + f.user + " ", "Traffic Type: " + f.trafficType + " ", usage, Dashes]
  }

  /** The lines of one entry's block; none when its name lacks a field. */
  function EntryLines(item: StatItem, gb: nat -> string): seq<string> {
    match ParseName(item.name)
    case Ok(f) => ItemLines(f, UsageLine(item.value, gb))
    case Err(_) => []
  }

  /** The lines of the report: the timestamp, then four lines per entry. */
  function ReportLines(timestamp: string, items: seq<StatItem>, gb: nat -> string): seq<string>
    decreases |items|
  {
    if |items| == 0 then [timestamp]
    else
      ReportLines(timestamp, items[..|items| - 1], gb) + EntryLines(items[|items| - 1], gb)
  }

  /** How many of `lines` are equal to `x`. */
  function CountOf(lines: seq<string>, x: string): nat
    decreases |lines|
  {
    if |lines| == 0 then 0 else (if lines[0] == x then 1 else 0) + CountOf(lines[1..], x)
  }

  /** The user and the traffic type of a name, when it has them, fit on one line each. */
  predicate FieldsOnOneLine(name: string) {
    match ParseName(name)
    case Ok(f) => '\n' !in f.user && '\n' !in f.trafficType
    case Err(_) => true
  }

  lemma {:induction false} JoinLinesAppend(a: seq<string>, b: seq<string>)
    ensures JoinLines(a + b) == JoinLines(a) + JoinLines(b)
    decreases |a|
  {
    if |a| == 0 {
      assert a + b == b;
    } else {
      assert (a + b)[1..] == a[1..] + b;
      JoinLinesAppend(a[1..], b);
    }
  }

  lemma {:induction false} CountOfAppend(a: seq<string>, b: seq<string>, x: string)
    ensures CountOf(a + b, x) == CountOf(a, x) + CountOf(b, x)
    decreases |a|
  {
    if |a| == 0 {
      assert a + b == b;
    } else {
      assert (a + b)[1..] == a[1..] + b;
      CountOfAppend(a[1..], b, x);
    }
  }

  /** Splitting newline-terminated lines that hold no newline gives them back, and one empty piece. */
  lemma {:induction false} SplitJoinLines(lines: seq<string>)
    requires OneLineEach(lines)
    ensures Split(JoinLines(lines), "\n") == lines + [""]
    decreases |lines|
  {
    if |lines| == 0 {
      assert IndexOf("", "\n", 0) == None;
    } else {
      var rest := JoinLines(lines[1..]);
      var s := lines[0] + "\n" + rest;
      calc {
        Split(JoinLines(lines), "\n");
      ==
        Split(s, "\n");
      == { FirstCharSeparator(lines[0], '\n', rest); SplitAfterFirst(s, "\n", |lines[0]|); }
        [s[0..|lines[0]|]] + Split(s[|lines[0]| + 1..], "\n");
      == { ThreeParts(lines[0], "\n", rest); }
        [lines[0]] + Split(rest, "\n");
      == { SplitJoinLines(lines[1..]); }
        [lines[0]] + (lines[1..] + [""]);
      == { assert lines == [lines[0]] + lines[1..]; }
        lines + [""];
      }
    }
  }

  /** A block is its four lines, each followed by a newline. */
  lemma BlockIsItsLines(f: Fields, usage: string)
    ensures Block(f, usage) == JoinLines(ItemLines(f, usage))
  {
    var ls := ItemLines(f, usage);
    assert ls[1..][1..][1..][1..] == [];
    assert JoinLines(ls[1..][1..][1..]) == Dashes + "\n";
    assert JoinLines(ls[1..][1..]) == usage + "\n" + (Dashes + "\n");
    assert JoinLines(ls[1..]) == ls[1] + "\n" + (usage + "\n" + (Dashes + "\n"));
  }

  /** A successful report is its lines, each followed by a newline. */
  lemma {:induction false} ContentIsItsLines(timestamp: string, items: seq<StatItem>, gb: nat -> string)
    requires Accumulate(timestamp, items, gb).Ok?
    ensures Accumulate(timestamp, items, gb).value == JoinLines(ReportLines(timestamp, items, gb))
    decreases |items|
  {
    if |items| == 0 {
      assert [timestamp][1..] == [];
    } else {
      var init, last := items[..|items| - 1], items[|items| - 1];
      ContentIsItsLines(timestamp, init, gb);
      var f := ParseName(last.name).value;
      BlockIsItsLines(f, UsageLine(last.value, gb));
      JoinLinesAppend(ReportLines(timestamp, init, gb), EntryLines(last, gb));
    }
  }

  /** No line holds a newline. */
  predicate OneLineEach(lines: seq<string>) {
    forall i :: 0 <= i < |lines| ==> '\n' !in lines[i]
  }

  lemma OneLineEachAppend(a: seq<string>, b: seq<string>)
    requires OneLineEach(a) && OneLineEach(b)
    ensures OneLineEach(a + b)
  {
    forall i | 0 <= i < |a + b| ensures '\n' !in (a + b)[i] {
      if i < |a| {
        assert (a + b)[i] == a[i];
      } else {
        assert (a + b)[i] == b[i - |a|];
      }
    }
  }

  /** Only the last of a block's four lines is the separator. */
  lemma {:induction false} ItemLinesCount(f: Fields, usage: string)
    requires usage == [] || usage[0] == 'D'
    ensures CountOf(ItemLines(f, usage), Dashes) == 1
  {
    var l0 := ItemLines(f, usage);
    var l1 := l0[1..];
    var l2 := l1[1..];
    var l3 := l2[1..];
    assert l3 == [Dashes] && l3[1..] == [];
    assert CountOf(l3, Dashes) == 1;
    assert l2[0] == usage && usage != Dashes by {
      assert Dashes[0] == '-';
    }
    assert CountOf(l2, Dashes) == 1;
    assert l1[0][0] == 'T';
    assert CountOf(l1, Dashes) == 1;
    assert l0[0][0] == 'U';
  }

  /** The usage line holds no newline when the formatted amounts do not, and starts with "D" when not empty. */
  lemma UsageLineShape(value: Option<nat>, gb: nat -> string)
    requires forall v :: '\n' !in gb(v)
    ensures '\n' !in UsageLine(value, gb)
    ensures UsageLine(value, gb) == [] || UsageLine(value, gb)[0] == 'D'
  {
    if value.Some? {
      assert '\n' !in gb(value.value);
    }
  }

  /** The lines of an entry that parses hold no newline under one-line fields, and one of them is the separator. */
  lemma EntryLinesShape(item: StatItem, gb: nat -> string)
    requires forall v :: '\n' !in gb(v)
    requires FieldsOnOneLine(item.name) && ParseName(item.name).Ok?
    ensures OneLineEach(EntryLines(item, gb))
    ensures CountOf(EntryLines(item, gb), Dashes) == 1
  {
    var f := ParseName(item.name).value;
    var usage := UsageLine(item.value, gb);
    UsageLineShape(item.value, gb);
    ItemLinesCount(f, usage);
    var ls := ItemLines(f, usage);
    assert '\n' !in ls[0] && '\n' !in ls[1];
  }

  /** Under one-line fields, no line of the report holds a newline, and exactly one per entry is the separator. */
  lemma {:induction false} ReportLinesShape(timestamp: string, items: seq<StatItem>, gb: nat -> string)
    requires '\n' !in timestamp && timestamp != Dashes
    requires forall v :: '\n' !in gb(v)
    requires forall i :: 0 <= i < |items| ==> FieldsOnOneLine(items[i].name)
    requires Accumulate(timestamp, items, gb).Ok?
    ensures OneLineEach(ReportLines(timestamp, items, gb))
    ensures CountOf(ReportLines(timestamp, items, gb), Dashes) == |items|
    decreases |items|
  {
    if |items| == 0 {
      assert [timestamp][1..] == [];
    } else {
      var init, last := items[..|items| - 1], items[|items| - 1];
      assert forall i :: 0 <= i < |init| ==> init[i] == items[i];
      ReportLinesShape(timestamp, init, gb);
      assert ParseName(last.name).Ok?;
      EntryLinesShape(last, gb);
      var front, ls := ReportLines(timestamp, init, gb), EntryLines(last, gb);
      OneLineEachAppend(front, ls);
      CountOfAppend(front, ls, Dashes);
    }
  }

  /**
   * When the timestamp, the users, the traffic types and the formatted
   * amounts hold no newline, the report's lines are the timestamp and four
   * lines per entry, and exactly as many of them are separator lines as
   * there are entries.
   */
  lemma OneSeparatorLinePerEntry(timestamp: string, items: seq<StatItem>, gb: nat -> string)
    requires '\n' !in timestamp && timestamp != Dashes
    requires forall v :: '\n' !in gb(v)
    requires forall i :: 0 <= i < |items| ==> FieldsOnOneLine(items[i].name)
    requires Accumulate(timestamp, items, gb).Ok?
    ensures Split(Accumulate(timestamp, items, gb).value, "\n") == ReportLines(timestamp, items, gb) + [""]
    ensures CountOf(Split(Accumulate(timestamp, items, gb).value, "\n"), Dashes) == |items|
  {
    var lines := ReportLines(timestamp, items, gb);
    ContentIsItsLines(timestamp, items, gb);
    ReportLinesShape(timestamp, items, gb);
    SplitJoinLines(lines);
    CountOfAppend(lines, [""], Dashes);
  }

  // ---------------------------------------------------------------------
  // The message text

  lemma DashIsNotWhitespace()
    ensures '-' !in Whitespace && '\n' in Whitespace
  {
  }

  /**
   * A successful report starts with the timestamp's first character and
   * ends with a newline, right after the timestamp's last character or
   * after the dashes.
   */
  lemma {:induction false} ContentEnds(timestamp: string, items: seq<StatItem>, gb: nat -> string)
    requires |timestamp| > 0 && Accumulate(timestamp, items, gb).Ok?
    ensures var c := Accumulate(timestamp, items, gb).value;
      |c| >= 2 && c[0] == timestamp[0] && c[|c| - 1] == '\n'
      && (c[|c| - 2] == timestamp[|timestamp| - 1] || c[|c| - 2] == '-')
    decreases |items|
  {
    if |items| > 0 {
      var init := items[..|items| - 1];
      ContentEnds(timestamp, init, gb);
      var f := ParseName(items[|items| - 1].name).value;
      var b := Block(f, UsageLine(items[|items| - 1].value, gb));
      BlockEndsWithSeparator(f, UsageLine(items[|items| - 1].value, gb));
      assert b[|b| - 1] == Separator[|Separator| - 1] && b[|b| - 2] == Separator[|Separator| - 2];
    }
  }

  /**
   * When the timestamp starts and ends with a non-whitespace character, the
   * message text is the report without its final newline.
   */
  lemma PayloadDropsFinalNewline(timestamp: string, stats: Option<seq<StatItem>>, gb: nat -> string)
    requires |timestamp| > 0 && timestamp[0] !in Whitespace && timestamp[|timestamp| - 1] !in Whitespace
    ensures match Content(timestamp, stats, gb)
      case Err(e) => PayloadText(timestamp, stats, gb) == Err(e)
      case Ok(c) => |c| >= 2 && c[|c| - 1] == '\n' && PayloadText(timestamp, stats, gb) == Ok(c[..|c| - 1])
  {
    match Content(timestamp, stats, gb)
    case Err(e) =>
    case Ok(c) =>
      var items := if stats.Some? then stats.value else [];
      assert Accumulate(timestamp, items, gb) == Ok(c);
      ContentEnds(timestamp, items, gb);
      DashIsNotWhitespace();
      StripCharsDropsLast(c, Whitespace);
  }

  /** Without stats output the message text is the stripped timestamp. */
  lemma PayloadWithoutStats(timestamp: string, gb: nat -> string)
    ensures PayloadText(timestamp, None, gb) == Ok(Strip(timestamp))
  {
    StripCharsIgnoresTrailing(timestamp, Whitespace, '\n');
  }
}
