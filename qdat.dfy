/** The `.qdat` quantized-data file format: `WriteData` writes it; `ReadVars` reads its
    variable table and `ReadQuantExamples` the data lines that follow. A file holds,
    in order, lines that are ignored, a line containing `Variable Table`, one line
    `# name [bounds]` per variable, a line containing `# ----`, then one line per data
    point: its name and its integer values, separated by spaces. */
module Qdat {
  import opened PyCore
  import opened Text
  import opened LineFiles

  /** One data point as it is written: the point's name, then its values. */
  datatype Point = Point(name: string, vals: seq<int>)

  const Banner: string := "# Quantized data from DataUtils\n"
  const Rule: string := "# ----------\n"
  const TableTitle: string := "# Variable Table\n"

  /** `map(str, vs)`. */
  function IntStrings(vs: seq<int>): (r: seq<string>)
    ensures |r| == |vs|
  {
    seq(|vs|, k requires 0 <= k < |vs| => IntToString(vs[k]))
  }

  /** The text between the brackets of `str(bs)` for a list of integers. */
  function BoundsInner(bs: seq<int>): string {
    JoinWith(IntStrings(bs), ", ")
  }

  /** `'# %s %s\n' % (name, str(bs))`: one line of the variable table. */
  function VarLine(name: string, bs: seq<int>): string {
    "# " + name + " " + "[" + BoundsInner(bs) + "]" + "\n"
  }

  /** `string.join(map(str, example), ' ') + '\n'`: one data line. */
  function ExampleLine(p: Point): string {
    JoinWith([p.name] + IntStrings(p.vals), " ") + "\n"
  }

  function HeaderLines(): seq<string> {
    [Banner, Rule, TableTitle]
  }

  function VarLines(names: seq<string>, bounds: seq<seq<int>>): (r: seq<string>)
    requires |names| <= |bounds|
    ensures |r| == |names|
  {
    if names == [] then []
    else VarLines(names[..|names| - 1], bounds) + [VarLine(names[|names| - 1], bounds[|names| - 1])]
  }

  /** Line `i` of the table is the table line of variable `i`. */
  lemma {:induction false} VarLinesAt(names: seq<string>, bounds: seq<seq<int>>)
    requires |names| <= |bounds|
    ensures forall i :: 0 <= i < |names| ==> VarLines(names, bounds)[i] == VarLine(names[i], bounds[i])
  {
    if names != [] {
      var front := names[..|names| - 1];
      VarLinesAt(front, bounds);
      var all := VarLines(names, bounds);
      var init := VarLines(front, bounds);
      assert all == init + [VarLine(names[|names| - 1], bounds[|names| - 1])];
      forall i | 0 <= i < |names| ensures all[i] == VarLine(names[i], bounds[i]) {
        if i < |front| {
          assert names[i] == front[i] && all[i] == init[i];
        }
      }
    }
  }

  function ExampleLines(examples: seq<Point>): (r: seq<string>)
    ensures |r| == |examples|
  {
    if examples == [] then []
    else ExampleLines(examples[..|examples| - 1]) + [ExampleLine(examples[|examples| - 1])]
  }

  /** Data line `i` is the line of point `i`. */
  lemma {:induction false} ExampleLinesAt(examples: seq<Point>)
    ensures forall i :: 0 <= i < |examples| ==> ExampleLines(examples)[i] == ExampleLine(examples[i])
  {
    if examples != [] {
      var front := examples[..|examples| - 1];
      ExampleLinesAt(front);
      forall i | 0 <= i < |examples| ensures ExampleLines(examples)[i] == ExampleLine(examples[i]) {
        if i < |front| {
          assert examples[i] == front[i];
        }
      }
    }
  }

  /** Every line `WriteData` writes, in order, when nothing goes wrong. */
  function QdatLines(names: seq<string>, bounds: seq<seq<int>>, examples: seq<Point>): seq<string>
    requires |names| <= |bounds|
  {
    HeaderLines() + VarLines(names, bounds) + [Rule] + ExampleLines(examples)
  }

  /** `WriteData(outFile, varNames, qBounds, examples)`: writes the header, one table line
      per variable, the terminating rule and one line per example. A `qBounds` shorter
      than `varNames` raises IndexError once the lines it does cover are written. */
  method WriteData(outFile: LineWriter, varNames: seq<string>, qBounds: seq<seq<int>>,
                   examples: seq<Point>) returns (r: Result<()>)
    modifies outFile
    ensures |varNames| <= |qBounds| ==>
      r == Ok(()) && outFile.written == old(outFile.written) + QdatLines(varNames, qBounds, examples)
    ensures |varNames| > |qBounds| ==>
      r == Fail(IndexError)
      && outFile.written == old(outFile.written) + HeaderLines() + VarLines(varNames[..|qBounds|], qBounds)
  {
    r := WriteTable(outFile, varNames, qBounds);
    if r.Fail? {
      return;
    }
    ghost var table := outFile.written;
    outFile.Write(Rule);
    WriteExamples(outFile, examples);
    assert outFile.written == table + [Rule] + ExampleLines(examples);
    QdatLinesSplit(old(outFile.written), varNames, qBounds, examples);
  }

  /** The header and the variable-table loop of `WriteData`. */
  method WriteTable(outFile: LineWriter, varNames: seq<string>, qBounds: seq<seq<int>>)
    returns (r: Result<()>)
    modifies outFile
    ensures |varNames| <= |qBounds| ==>
      r == Ok(()) && outFile.written == old(outFile.written) + HeaderLines() + VarLines(varNames, qBounds)
    ensures |varNames| > |qBounds| ==>
      r == Fail(IndexError)
      && outFile.written == old(outFile.written) + HeaderLines() + VarLines(varNames[..|qBounds|], qBounds)
  {
    outFile.Write(Banner);
    outFile.Write(Rule);
    outFile.Write(TableTitle);
    for i := 0 to |varNames|
      invariant i <= |qBounds|
      invariant outFile.written == old(outFile.written) + HeaderLines() + VarLines(varNames[..i], qBounds)
    {
      if i >= |qBounds| {
        return Fail(IndexError);
      }
      outFile.Write(VarLine(varNames[i], qBounds[i]));
      assert varNames[..i + 1][..i] == varNames[..i];
    }
    assert varNames[..|varNames|] == varNames;
    return Ok(());
  }

  /** The example loop of `WriteData`. */
  method WriteExamples(outFile: LineWriter, examples: seq<Point>)
    modifies outFile
    ensures outFile.written == old(outFile.written) + ExampleLines(examples)
  {
    for i := 0 to |examples|
      invariant outFile.written == old(outFile.written) + ExampleLines(examples[..i])
    {
      outFile.Write(ExampleLine(examples[i]));
      assert examples[..i + 1][..i] == examples[..i];
    }
    assert examples[..|examples|] == examples;
  }

  /** Regrouping of the concatenation `WriteData` builds. */
  lemma QdatLinesSplit(w: seq<string>, names: seq<string>, bounds: seq<seq<int>>, examples: seq<Point>)
    requires |names| <= |bounds|
    ensures w + HeaderLines() + VarLines(names, bounds) + [Rule] + ExampleLines(examples)
         == w + QdatLines(names, bounds, examples)
  {
  }

  /** Prepends what earlier lines produced to the outcome of the later ones. */
  function Prepend3<A, B>(xs: seq<A>, ys: seq<B>, rest: Result<(seq<A>, seq<B>, nat)>): Result<(seq<A>, seq<B>, nat)> {
    match rest
    case Fail(e) => Fail(e)
    case Ok((a, b, p)) => Ok((xs + a, ys + b, p))
  }

  function Prepend2<A, B>(xs: seq<A>, ys: seq<B>, rest: Result<(seq<A>, seq<B>)>): Result<(seq<A>, seq<B>)> {
    match rest
    case Fail(e) => Fail(e)
    case Ok((a, b)) => Ok((xs + a, ys + b))
  }

  lemma PrependNothing<A, B>(r: Result<(seq<A>, seq<B>)>)
    ensures Prepend2([], [], r) == r
  {
    if r.Ok? {
      var (a, b) := r.value;
      assert [] + a == a && [] + b == b;
    }
  }

  lemma PrependNothing3<A, B>(r: Result<(seq<A>, seq<B>, nat)>)
    ensures Prepend3([], [], r) == r
  {
    if r.Ok? {
      var (a, b, p) := r.value;
      assert [] + a == a && [] + b == b;
    }
  }

  /** What one table line contributes: the stripped name before its first `[` and the
      text after it without the last two characters, or nothing when it has no `[`. */
  function TableEntry(line: string): Option<(string, string)> {
    var parts := Split(Drop(line, 2), '[');
    if |parts| < 2 then None else Some((Strip(parts[0]), DropLast(parts[1], 2)))
  }

  /** What the first loop of `ReadVars` collects from position `pos` on: the stripped
      name before the first `[` of each line and the text after it without its last two
      characters (`]` and the newline), up to the first line containing `# ----`, and
      the position after that line. A line without `[` (including the empty string
      `readline()` gives at the end of the file) raises IndexError. */
  function ScanTable(lines: seq<string>, pos: nat): Result<(seq<string>, seq<string>, nat)>
    requires pos <= |lines|
    decreases |lines| - pos
  {
    var line := LineAt(lines, pos);
    if Contains(line, "# ----") then Ok(([], [], NextPos(lines, pos)))
    else
      match TableEntry(line)
      case None => Fail(IndexError)
      case Some((name, raw)) =>
        assert TableEntry(LineAt(lines, |lines|)) == None by {
          assert Split(Drop(LineAt(lines, |lines|), 2), '[') == [""];
        }
        Prepend3([name], [raw], ScanTable(lines, pos + 1))
  }

  lemma Prepend3Assoc<A, B>(xs: seq<A>, ys: seq<B>, xs2: seq<A>, ys2: seq<B>, r: Result<(seq<A>, seq<B>, nat)>)
    ensures Prepend3(xs, ys, Prepend3(xs2, ys2, r)) == Prepend3(xs + xs2, ys + ys2, r)
  {
    if r.Ok? {
      var (a, b, p) := r.value;
      assert xs + (xs2 + a) == xs + xs2 + a;
      assert ys + (ys2 + b) == ys + ys2 + b;
    }
  }

  /** The conversion applied to each item: `int` on data lines, `float` on bounds. */
  datatype Conversion = ToInt | ToFloat

  /** `int(item)` or `float(item)`, the latter modelled on whole numbers. */
  function ConvertItem(c: Conversion, item: string): Option<int> {
    match c
    case ToInt => ParseInt(item)
    case ToFloat => ParseWholeFloat(item)
  }

  /** `c(item)` for each item, or None at the first item that does not convert. */
  function ParseAll(items: seq<string>, c: Conversion): Option<seq<int>> {
    if items == [] then Some([])
    else
      match ParseAll(items[..|items| - 1], c)
      case None => None
      case Some(vs) =>
        match ConvertItem(c, items[|items| - 1])
        case None => None
        case Some(v) => Some(vs + [v])
  }

  /** Converting a list succeeds exactly when every item converts, and then gives each
      item's number in order. */
  lemma {:induction false} ParseAllMeaning(items: seq<string>, c: Conversion)
    ensures ParseAll(items, c).Some? <==> forall k :: 0 <= k < |items| ==> ConvertItem(c, items[k]).Some?
    ensures ParseAll(items, c).Some? ==> |ParseAll(items, c).value| == |items|
    ensures ParseAll(items, c).Some? ==>
      forall k :: 0 <= k < |items| ==> ConvertItem(c, items[k]) == Some(ParseAll(items, c).value[k])
  {
    if items != [] {
      var init := items[..|items| - 1];
      ParseAllMeaning(init, c);
      assert forall k :: 0 <= k < |init| ==> init[k] == items[k];
    }
  }

  /** The bounds one raw table entry stands for: none for the empty text, otherwise the
      numbers between its commas. */
  function ParseBounds(raw: string): Option<seq<int>> {
    if raw == "" then Some([]) else ParseAll(Split(raw, ','), ToFloat)
  }

  /** The second loop of `ReadVars`: every raw entry converted, or ValueError. */
  function ParseAllBounds(raws: seq<string>): Result<seq<seq<int>>> {
    if raws == [] then Ok([])
    else
      var front := ParseAllBounds(raws[..|raws| - 1]);
      var last := ParseBounds(raws[|raws| - 1]);
      if front.Fail? then front
      else if last.None? then Fail(ValueError)
      else Ok(front.value + [last.value])
  }

  /** The table conversion succeeds exactly when every entry converts, gives each
      entry's bounds in order, and otherwise raises ValueError. */
  lemma {:induction false} ParseAllBoundsMeaning(raws: seq<string>)
    ensures ParseAllBounds(raws).Ok? <==> forall k :: 0 <= k < |raws| ==> ParseBounds(raws[k]).Some?
    ensures ParseAllBounds(raws).Fail? ==> ParseAllBounds(raws).error == ValueError
    ensures ParseAllBounds(raws).Ok? ==> |ParseAllBounds(raws).value| == |raws|
    ensures ParseAllBounds(raws).Ok? ==>
      forall k :: 0 <= k < |raws| ==> ParseBounds(raws[k]) == Some(ParseAllBounds(raws).value[k])
  {
    if raws != [] {
      var init := raws[..|raws| - 1];
      ParseAllBoundsMeaning(init);
      assert forall k :: 0 <= k < |init| ==> init[k] == raws[k];
    }
  }

  /** What `ReadVars` returns for a file read from `pos`, with the position it leaves. */
  function ReadVarsSpec(lines: seq<string>, pos: nat): Result<(seq<string>, seq<seq<int>>, nat)>
    requires pos <= |lines|
  {
    match ScanTable(lines, AfterMatch(lines, pos, "Variable Table"))
    case Fail(e) => Fail(e)
    case Ok((names, raws, p)) =>
      match ParseAllBounds(raws)
      case Fail(e) => Fail(e)
      case Ok(bounds) => Ok((names, bounds, p))
  }

  /** `ReadVars(inFile)`: the variable names and quantization bounds of the table. */
  method ReadVars(inFile: LineReader) returns (r: Result<(seq<string>, seq<seq<int>>)>)
    requires inFile.Valid()
    modifies inFile
    ensures inFile.Valid()
    ensures var spec := ReadVarsSpec(inFile.lines, old(inFile.pos));
      match spec
      case Fail(e) => r == Fail(e)
      case Ok((names, bounds, p)) => r == Ok((names, bounds)) && inFile.pos == p
  {
    var varNames: seq<string> := [];
    var raw: seq<string> := [];
    ghost var start := inFile.pos;
    MoveToMatchingLine(inFile, "Variable Table");
    ghost var lines := inFile.lines;
    ghost var p0 := inFile.pos;
    ghost var c := inFile.pos;
    var inLine := inFile.ReadLine();
    PrependNothing3(ScanTable(lines, p0));
    while !Contains(inLine, "# ----")
      invariant inFile.Valid() && inFile.lines == lines && p0 <= c <= |lines|
      invariant inLine == LineAt(lines, c) && inFile.pos == NextPos(lines, c)
      invariant ScanTable(lines, p0) == Prepend3(varNames, raw, ScanTable(lines, c))
      invariant |varNames| == |raw|
      decreases |lines| - c
    {
      var splitLine := Split(Drop(inLine, 2), '[');
      if |splitLine| < 2 {
        assert TableEntry(inLine) == None;
        return Fail(IndexError);
      }
      assert TableEntry(inLine) == Some((Strip(splitLine[0]), DropLast(splitLine[1], 2)));
      assert c < |lines| by {
        assert Split(Drop(LineAt(lines, |lines|), 2), '[') == [""];
      }
      Prepend3Assoc(varNames, raw, [Strip(splitLine[0])], [DropLast(splitLine[1], 2)], ScanTable(lines, c + 1));
      varNames := varNames + [Strip(splitLine[0])];
      raw := raw + [DropLast(splitLine[1], 2)];
      c := c + 1;
      inLine := inFile.ReadLine();
    }
    assert ScanTable(lines, c) == Ok(([], [], inFile.pos));
    assert varNames + [] == varNames && raw + [] == raw;
    assert ScanTable(lines, AfterMatch(lines, start, "Variable Table")) == Ok((varNames, raw, inFile.pos));
    var qBounds := ConvertBounds(raw);
    match qBounds
    case Fail(e) =>
      assert ReadVarsSpec(lines, start) == Fail(e);
      return Fail(e);
    case Ok(bs) =>
      assert ReadVarsSpec(lines, start) == Ok((varNames, bs, inFile.pos));
      return Ok((varNames, bs));
  }

  /** The second loop of `ReadVars`: converts each raw table entry to its list of
      numbers, raising ValueError at the first item that is not a number. */
  method ConvertBounds(raw: seq<string>) returns (r: Result<seq<seq<int>>>)
    ensures r == ParseAllBounds(raw)
  {
    var qBounds: seq<seq<int>> := [];
    for i := 0 to |raw|
      invariant ParseAllBounds(raw[..i]) == Ok(qBounds)
    {
      assert raw[..i + 1][..i] == raw[..i];
      if raw[i] != "" {
        var l := Split(raw[i], ',');
        var b: seq<int> := [];
        for j := 0 to |l|
          invariant ParseAll(l[..j], ToFloat) == Some(b)
        {
          assert l[..j + 1][..j] == l[..j];
          var item := ParseWholeFloat(l[j]);
          if item.None? {
            ParseAllMeaning(l, ToFloat);
            ParseAllBoundsMeaning(raw);
            return Fail(ValueError);
          }
          b := b + [item.value];
        }
        assert l[..|l|] == l;
        qBounds := qBounds + [b];
      } else {
        qBounds := qBounds + [[]];
      }
    }
    assert raw[..|raw|] == raw;
    return Ok(qBounds);
  }

  /** What one data line contributes: nothing (a comment, or a line without a second
      field), a point, or ValueError when one of its values is not an integer. */
  function LineEntry(line: string): Result<Option<(string, seq<int>)>> {
    if line != "" && line[0] == '#' then Ok(None)
    else
      var fields := SplitSpaces(line);
      if |fields| <= 1 then Ok(None)
      else
        match ParseAll(fields[1..], ToInt)
        case None => Fail(ValueError)
        case Some(vals) => Ok(Some((fields[0], vals)))
  }

  /** What `ReadQuantExamples` returns for the lines from `pos` on: it stops at the first
      empty string (the end of the file), skips lines starting with `#` and lines with
      no space-separated second field, and otherwise takes the first field as the point's
      name and the others as its integer values; a value that is not an integer raises
      ValueError. */
  function ParseExamples(lines: seq<string>, pos: nat): Result<(seq<string>, seq<seq<int>>)>
    requires pos <= |lines|
    decreases |lines| - pos
  {
    var line := LineAt(lines, pos);
    if line == "" then Ok(([], []))
    else
      match LineEntry(line)
      case Fail(e) => Fail(e)
      case Ok(None) => ParseExamples(lines, pos + 1)
      case Ok(Some((name, vals))) => Prepend2([name], [vals], ParseExamples(lines, pos + 1))
  }

  lemma Prepend2Assoc<A, B>(xs: seq<A>, ys: seq<B>, xs2: seq<A>, ys2: seq<B>, r: Result<(seq<A>, seq<B>)>)
    ensures Prepend2(xs, ys, Prepend2(xs2, ys2, r)) == Prepend2(xs + xs2, ys + ys2, r)
  {
    if r.Ok? {
      var (a, b) := r.value;
      assert xs + (xs2 + a) == xs + xs2 + a;
      assert ys + (ys2 + b) == ys + ys2 + b;
    }
  }

  /** `ReadQuantExamples(inFile)`: the point names and the integer rows of the data lines. */
  method ReadQuantExamples(inFile: LineReader) returns (r: Result<(seq<string>, seq<seq<int>>)>)
    requires inFile.Valid()
    modifies inFile
    ensures inFile.Valid()
    ensures r == ParseExamples(inFile.lines, old(inFile.pos))
  {
    var examples: seq<seq<int>> := [];
    var names: seq<string> := [];
    ghost var lines := inFile.lines;
    ghost var p0 := inFile.pos;
    ghost var c := inFile.pos;
    var inLine := inFile.ReadLine();
    PrependNothing(ParseExamples(lines, p0));
    while inLine != ""
      invariant inFile.Valid() && inFile.lines == lines && p0 <= c <= |lines|
      invariant inLine == LineAt(lines, c) && inFile.pos == NextPos(lines, c)
      invariant ParseExamples(lines, p0) == Prepend2(names, examples, ParseExamples(lines, c))
      decreases |lines| - c
    {
      ghost var rest := ParseExamples(lines, c + 1);
      if inLine[0] != '#' {
        var resArr := SplitSpaces(inLine);
        if |resArr| > 1 {
          var vals := ParseAll(resArr[1..], ToInt);
          if vals.None? {
            assert LineEntry(inLine) == Fail(ValueError);
            return Fail(ValueError);
          }
          assert LineEntry(inLine) == Ok(Some((resArr[0], vals.value)));
          Prepend2Assoc(names, examples, [resArr[0]], [vals.value], rest);
          examples := examples + [vals.value];
          names := names + [resArr[0]];
        } else {
          assert LineEntry(inLine) == Ok(None);
        }
      } else {
        assert LineEntry(inLine) == Ok(None);
      }
      c := c + 1;
      inLine := inFile.ReadLine();
    }
    assert ParseExamples(lines, c) == Ok(([], []));
    assert names + [] == names && examples + [] == examples;
    return Ok((names, examples));
  }
}
