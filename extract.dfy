/**
 * Block extraction: the table is cut into `numInputs` equal, contiguous
 * blocks; each block's first cell holds a `Parameters: k=v, ...` header and
 * its later rows hold named measurements; the two are merged into one
 * fixed-shape device record per block.
 */
module Extract {
  import opened Wrappers
  import opened Text
  import opened Table
  import opened Numbers
  import LastWins
  import Results

  const Prefix: string := "Parameters:"
  const Topology: string := "CS_Current_source_load"

  /**
   * One device record. Fields fed only by header parameters are strings;
   * fields that a measurement may supply hold that measurement's cell.
   */
  datatype Record = Record(
    resistance: Cell,
    width1: Cell,
    length1: string,
    width2: Cell,
    length2: string,
    gateVoltage: string,
    drainVoltage: string,
    sourceVoltage: string,
    currentSourceVoltage: string,
    power: Cell,
    speed: Cell,
    gain: Cell,
    topology: string)

  /**
   * The exceptions that abort the script: division by a zero block count,
   * indexing an empty block, a header cell that is not text, and a "Power"
   * text that `float()` rejects.
   */
  datatype Error = NoBlocks | EmptyBlock(block: nat) | HeaderNotText(block: nat) | PowerNotNumeric(block: nat)

  // ---------------------------------------------------------------- header

  /** The header text that is split into items: the prefix and every later copy of it removed, then stripped. */
  function Unprefixed(header: string): (r: string)
    ensures |r| <= |header|
    ensures !StartsWith(header, Prefix) ==> r == header
  {
    if StartsWith(header, Prefix) then Strip(RemoveAll(header, Prefix)) else header
  }

  /**
   * One comma-separated item: skipped when it has no `=`, otherwise split at
   * its first `=` into a stripped key (free of `=`) and a stripped value.
   */
  function ItemEntry(item: string): (e: Option<(string, string)>)
    ensures e.None? <==> '=' !in item
    ensures e.Some? ==> '=' !in e.value.0
    ensures e.Some? ==> Strip(e.value.0) == e.value.0 && Strip(e.value.1) == e.value.1
  {
    var t := Strip(item);
    StripKeeps(item, '=');
    if '=' in t then
      var kv := SplitFirst(t, '=');
      StripKeeps(kv.0, '=');
      StripIdempotent(kv.0);
      StripIdempotent(kv.1);
      Some((Strip(kv.0), Strip(kv.1)))
    else None
  }

  function Entries(items: seq<string>): seq<Option<(string, string)>>
  {
    seq(|items|, j requires 0 <= j < |items| => ItemEntry(items[j]))
  }

  /** The comma-separated items of a header. */
  function Items(header: string): seq<string>
  {
    SplitOn(Unprefixed(header), ',')
  }

  /** The parameter dictionary of a header. */
  ghost function ParamsOf(header: string): map<string, string>
  {
    LastWins.Store(Entries(Items(header)))
  }

  /** Header parsing as the script does it: strip the prefix, then store item after item. */
  method ParseHeader(header: string) returns (params: map<string, string>)
    ensures params == ParamsOf(header)
  {
    var paramStr := header;
    if StartsWith(paramStr, Prefix) {
      paramStr := Strip(RemoveAll(paramStr, Prefix));
    }
    var items := SplitOn(paramStr, ',');
    assert items == Items(header);
    params := map[];
    for j := 0 to |items|
      invariant params == LastWins.Store(Entries(items[..j]))
    {
      EntriesSnoc(items, j);
      var item := Strip(items[j]);
      if '=' in item {
        var eq := FirstIndex(item, '=');
        var key, value := Strip(item[..eq]), Strip(item[eq + 1..]);
        assert SplitFirst(item, '=') == (item[..eq], item[eq + 1..]);
        assert ItemEntry(items[j]) == Some((key, value));
        LastWins.StoreSnoc(Entries(items[..j]), Some((key, value)));
        params := params[key := value];
      } else {
        assert ItemEntry(items[j]) == None;
        LastWins.StoreSnoc(Entries(items[..j]), None);
      }
    }
    assert items[..|items|] == items;
  }

  lemma EntriesSnoc(items: seq<string>, j: nat)
    requires j < |items|
    ensures Entries(items[..j + 1]) == Entries(items[..j]) + [ItemEntry(items[j])]
  {
    var a, b := Entries(items[..j + 1]), Entries(items[..j]) + [ItemEntry(items[j])];
    forall i | 0 <= i < j + 1
      ensures a[i] == b[i]
    {
      assert items[..j + 1][i] == items[i];
      if i < j {
        assert items[..j][i] == items[i];
      }
    }
  }

  /** An entry list has key `k` at `j` exactly when item `j` defines `k`. */
  lemma EntriesKeys(items: seq<string>, k: string)
    ensures k in LastWins.Store(Entries(items)) <==>
      exists j :: 0 <= j < |items| && ItemEntry(items[j]).Some? && ItemEntry(items[j]).value.0 == k
  {
    var es := Entries(items);
    LastWins.StoreKeys(es, k);
    if exists j :: 0 <= j < |items| && ItemEntry(items[j]).Some? && ItemEntry(items[j]).value.0 == k {
      var j :| 0 <= j < |items| && ItemEntry(items[j]).Some? && ItemEntry(items[j]).value.0 == k;
      assert LastWins.KeyAt(es, j, k);
    }
    if exists j :: 0 <= j < |es| && LastWins.KeyAt(es, j, k) {
      var j :| 0 <= j < |es| && LastWins.KeyAt(es, j, k);
      assert es[j] == ItemEntry(items[j]);
    }
  }

  /** An item `key=value` with no `=` in the key gives the stripped key and value; the value may hold `=`. */
  lemma ItemEntryPair(key: string, value: string)
    requires '=' !in key
    ensures ItemEntry(key + "=" + value) == Some((Strip(key), Strip(value)))
  {
    var tk, tv := TrimLeft(key), TrimRight(value);
    assert Strip(key + "=" + value) == tk + "=" + tv by {
      StripAroundSeparator(key, '=', value);
    }
    assert SplitFirst(tk + "=" + tv, '=') == (tk, tv) by {
      assert forall j :: 0 <= j < |tk| ==> tk[j] == key[|key| - |tk| + j];
      SplitFirstAfter(tk, '=', tv);
    }
    assert Strip(tk) == Strip(key) by {
      StripTrimLeft(key);
    }
    assert Strip(tv) == Strip(value) by {
      StripTrimRight(value);
    }
  }

  /** A header key is defined exactly when some item of the header defines it. */
  lemma ParamsKeys(header: string, k: string)
    ensures k in ParamsOf(header) <==>
      exists j :: 0 <= j < |Items(header)| && ItemEntry(Items(header)[j]).Some? && ItemEntry(Items(header)[j]).value.0 == k
  {
    EntriesKeys(Items(header), k);
  }

  /** A later item with the same key overwrites an earlier one: the last defining item wins. */
  lemma ParamsLastWins(header: string, j: nat, k: string)
    requires j < |Items(header)|
    requires ItemEntry(Items(header)[j]).Some? && ItemEntry(Items(header)[j]).value.0 == k
    requires forall j' :: j < j' < |Items(header)| ==>
      !(ItemEntry(Items(header)[j']).Some? && ItemEntry(Items(header)[j']).value.0 == k)
    ensures k in ParamsOf(header) && ParamsOf(header)[k] == ItemEntry(Items(header)[j]).value.1
  {
    var es := Entries(Items(header));
    assert LastWins.KeyAt(es, j, k);
    forall j' | j < j' < |es|
      ensures !LastWins.KeyAt(es, j', k)
    {
      assert es[j'] == ItemEntry(Items(header)[j']);
    }
    LastWins.StoreLastWins(es, j, k);
  }

  /** A header without the prefix is split as it stands, without being stripped first. */
  lemma UnprefixedPlain(header: string)
    requires !StartsWith(header, Prefix)
    ensures Items(header) == SplitOn(header, ',')
  {
  }

  /**
   * A header that starts with the prefix is split from the rest with every
   * further copy of the prefix removed, then stripped.
   */
  lemma UnprefixedHeader(rest: string)
    ensures Items(Prefix + rest) == SplitOn(Strip(RemoveAll(rest, Prefix)), ',')
  {
    var h := Prefix + rest;
    assert h[..|Prefix|] == Prefix && h[|Prefix|..] == rest;
  }

  /**
   * When the rest repeats the prefix, that copy is removed as well: the text
   * before it is kept, and the removal goes on after it.
   */
  lemma UnprefixedRepeat(a: string, b: string)
    requires forall i: nat {:trigger MatchAt(a + Prefix + b, Prefix, i)} :: i < |a| ==> !MatchAt(a + Prefix + b, Prefix, i)
    ensures Items(Prefix + (a + Prefix + b)) == SplitOn(Strip(a + RemoveAll(b, Prefix)), ',')
  {
    UnprefixedHeader(a + Prefix + b);
    RemoveAllFirst(a, Prefix, b);
  }

  /** When the rest does not repeat the prefix, it is simply stripped. */
  lemma UnprefixedOnce(rest: string)
    requires !Occurs(rest, Prefix)
    ensures Items(Prefix + rest) == SplitOn(Strip(rest), ',')
  {
    UnprefixedHeader(rest);
    RemoveAllAbsent(rest, Prefix);
  }

  // ---------------------------------------------------- measured outputs

  function RowEntry(row: Row): Option<(string, Cell)>
  {
    match row.output
    case Some(name) => Some((name, row.nominal))
    case None => None
  }

  function RowEntries(rows: seq<Row>): seq<Option<(string, Cell)>>
  {
    seq(|rows|, j requires 0 <= j < |rows| => RowEntry(rows[j]))
  }

  /** The measured-output dictionary of a block: its rows after the first, null outputs skipped. */
  ghost function MeasuredOf(block: seq<Row>): map<string, Cell>
  {
    if block == [] then map[] else LastWins.Store(RowEntries(block[1..]))
  }

  /** The measurement scan as the script does it, row after row from the second. */
  method ScanMeasured(block: seq<Row>) returns (measured: map<string, Cell>)
    ensures measured == MeasuredOf(block)
  {
    measured := map[];
    if block == [] {
      return;
    }
    var idx := 1;
    while idx < |block|
      invariant 1 <= idx <= |block|
      invariant measured == LastWins.Store(RowEntries(block[1..idx]))
    {
      assert RowEntries(block[1..idx + 1])[..idx - 1] == RowEntries(block[1..idx]);
      var outputName := block[idx].output;
      var nominalVal := block[idx].nominal;
      if outputName.Some? {
        measured := measured[outputName.value := nominalVal];
      }
      idx := idx + 1;
    }
    assert block[1..idx] == block[1..];
  }

  /** An output name is measured exactly when some row after the first carries it. */
  lemma MeasuredKeys(block: seq<Row>, k: string)
    ensures k in MeasuredOf(block) <==> exists j :: 1 <= j < |block| && block[j].output == Some(k)
  {
    if block != [] {
      var es := RowEntries(block[1..]);
      LastWins.StoreKeys(es, k);
      if exists j :: 1 <= j < |block| && block[j].output == Some(k) {
        var j :| 1 <= j < |block| && block[j].output == Some(k);
        assert LastWins.KeyAt(es, j - 1, k);
      }
      if exists j :: 0 <= j < |es| && LastWins.KeyAt(es, j, k) {
        var j :| 0 <= j < |es| && LastWins.KeyAt(es, j, k);
        assert block[j + 1].output == Some(k);
      }
    }
  }

  /** The measured value of a name is the "Nominal" cell of the last row carrying it. */
  lemma MeasuredLastWins(block: seq<Row>, j: nat, k: string)
    requires 1 <= j < |block| && block[j].output == Some(k)
    requires forall j' :: j < j' < |block| ==> block[j'].output != Some(k)
    ensures k in MeasuredOf(block) && MeasuredOf(block)[k] == block[j].nominal
  {
    var es := RowEntries(block[1..]);
    assert LastWins.KeyAt(es, j - 1, k);
    forall j' | j - 1 < j' < |es|
      ensures !LastWins.KeyAt(es, j', k)
    {
      assert block[1..][j'] == block[j' + 1];
    }
    LastWins.StoreLastWins(es, j - 1, k);
  }

  // ------------------------------------------------------ record assembly

  /** `params.get(key, "")`. */
  function Param(params: map<string, string>, key: string): string
  {
    if key in params then params[key] else ""
  }

  /** `measured.get(key, fallback)`. */
  function MeasuredOr(measured: map<string, Cell>, key: string, fallback: Cell): Cell
  {
    if key in measured then measured[key] else fallback
  }

  /**
   * The `power` field: `""` unless a truthy "Power" was measured, else minus
   * its `float()` value. NaN stays NaN; text `float()` rejects aborts.
   */
  function PowerField(measured: map<string, Cell>, block: nat): (r: Result<Cell, Error>)
    ensures r.Failure? ==> r.error == PowerNotNumeric(block) && "Power" in measured && measured["Power"].Text?
    ensures r.Success? && r.value.Number? ==> "Power" in measured && Truthy(measured["Power"])
  {
    if "Power" in measured && Truthy(measured["Power"]) then
      match measured["Power"]
      case Blank => Success(Blank)
      case Number(x) => Success(Number(-x))
      case Text(s) =>
        match ParseNum(s)
        case Some(x) => Success(Number(-x))
        case None => Failure(PowerNotNumeric(block))
    else Success(Text(""))
  }

  /** The record of one block, from its parameter and measurement dictionaries. */
  function BuildRecord(params: map<string, string>, measured: map<string, Cell>, block: nat): Result<Record, Error>
  {
    match PowerField(measured, block)
    case Failure(e) => Failure(e)
    case Success(power) =>
      Success(Record(
        resistance := MeasuredOr(measured, "resistance", Text(Param(params, "R"))),
        width1 := MeasuredOr(measured, "width", Text(Param(params, "w1"))),
        length1 := Param(params, "l1"),
        width2 := MeasuredOr(measured, "width", Text(Param(params, "w2"))),
        length2 := Param(params, "l2"),
        gateVoltage := Param(params, "VG"),
        drainVoltage := Param(params, "VD"),
        sourceVoltage := Param(params, "VS"),
        currentSourceVoltage := Param(params, "VB"),
        power := power,
        speed := MeasuredOr(measured, "Speed", Text("")),
        gain := MeasuredOr(measured, "Gain", Text("")),
        topology := Topology))
  }

  /** A measured value wins over the header parameter; the parameter wins over `""`. */
  lemma MeasuredOverridesHeader(params: map<string, string>, measured: map<string, Cell>, block: nat)
    requires BuildRecord(params, measured, block).Success?
    ensures var r := BuildRecord(params, measured, block).value;
      && ("resistance" in measured ==> r.resistance == measured["resistance"])
      && ("resistance" !in measured && "R" in params ==> r.resistance == Text(params["R"]))
      && ("resistance" !in measured && "R" !in params ==> r.resistance == Text(""))
      && ("width" in measured ==> r.width1 == r.width2 == measured["width"])
      && ("width" !in measured ==> r.width1 == Text(Param(params, "w1")) && r.width2 == Text(Param(params, "w2")))
  {
  }

  /** The length and voltage fields depend on the header alone, whatever was measured. */
  lemma HeaderOnlyFields(params: map<string, string>, m1: map<string, Cell>, m2: map<string, Cell>, block: nat)
    requires BuildRecord(params, m1, block).Success? && BuildRecord(params, m2, block).Success?
    ensures var r1, r2 := BuildRecord(params, m1, block).value, BuildRecord(params, m2, block).value;
      && r1.length1 == r2.length1 && r1.length2 == r2.length2
      && r1.gateVoltage == r2.gateVoltage && r1.drainVoltage == r2.drainVoltage
      && r1.sourceVoltage == r2.sourceVoltage && r1.currentSourceVoltage == r2.currentSourceVoltage
      && r1.gateVoltage == Param(params, "VG") && r1.drainVoltage == Param(params, "VD")
      && r1.sourceVoltage == Param(params, "VS") && r1.currentSourceVoltage == Param(params, "VB")
      && r1.length1 == Param(params, "l1") && r1.length2 == Param(params, "l2")
  {
  }

  /** Speed, gain and the topology tag ignore the header. */
  lemma MeasuredOnlyFields(p1: map<string, string>, p2: map<string, string>, measured: map<string, Cell>, block: nat)
    requires BuildRecord(p1, measured, block).Success?
    ensures BuildRecord(p2, measured, block).Success?
    ensures var r1, r2 := BuildRecord(p1, measured, block).value, BuildRecord(p2, measured, block).value;
      && r1.speed == r2.speed && r1.gain == r2.gain
      && r1.topology == r2.topology == Topology
      && r1.power == r2.power
      && (if "Speed" in measured then r1.speed == measured["Speed"] else r1.speed == Text(""))
      && (if "Gain" in measured then r1.gain == measured["Gain"] else r1.gain == Text(""))
  {
  }

  /**
   * The power rule: `""` exactly when "Power" is missing, `""` or the number
   * 0; otherwise the negated value, where a blank (NaN) cell stays NaN; an
   * unreadable text aborts the run.
   */
  lemma PowerRule(measured: map<string, Cell>, block: nat)
    ensures PowerField(measured, block) == Success(Text("")) <==>
      "Power" !in measured || measured["Power"] == Text("") || measured["Power"] == Number(0.0)
    ensures "Power" in measured && measured["Power"].Number? && measured["Power"].x != 0.0 ==>
      PowerField(measured, block) == Success(Number(-measured["Power"].x))
    ensures "Power" in measured && measured["Power"].Text? && measured["Power"].s != [] ==>
      match ParseNum(measured["Power"].s)
      case Some(x) => PowerField(measured, block) == Success(Number(-x))
      case None => PowerField(measured, block) == Failure(PowerNotNumeric(block))
    ensures "Power" in measured && measured["Power"] == Blank ==> PowerField(measured, block) == Success(Blank)
    ensures PowerField(measured, block).Failure? ==> PowerField(measured, block).error == PowerNotNumeric(block)
  {
  }

  /** A measured "Power" of "0.01" is stored as the number -0.01. */
  lemma PowerExample()
    ensures PowerField(map["Power" := Text("0.01")], 0) == Success(Number(-0.01))
  {
    ParseHundredth();
  }

  /**
   * The text "0" is truthy, so it is negated rather than dropped: the field
   * becomes the number zero, not `""`.
   */
  lemma PowerZeroText()
    ensures PowerField(map["Power" := Text("0")], 0) == Success(Number(0.0))
  {
    ParseNatString(0);
    assert NatString(0) == "0";
  }

  /** Building a record fails exactly when the power field does. */
  lemma BuildRecordFails(params: map<string, string>, measured: map<string, Cell>, block: nat)
    ensures BuildRecord(params, measured, block).Failure? <==> PowerField(measured, block).Failure?
    ensures BuildRecord(params, measured, block).Success? ==>
      BuildRecord(params, measured, block).value.power == PowerField(measured, block).value
  {
  }

  // ------------------------------------------------------- partitioning

  /** Block `i` of `n` blocks of `k` rows ends inside a table of at least `n * k` rows. */
  lemma BlockFits(i: nat, n: nat, k: nat, len: nat)
    requires i < n && n * k <= len
    ensures 0 <= i * k <= len && i * k + k <= n * k && i * k + k <= len && (i + 1) * k <= len
  {
    assert (i + 1) * k <= n * k;
    assert (i + 1) * k == i * k + k;
  }

  /** Solver helper: the bounds of floor division. */
  lemma DivMulLe(n: nat, d: nat)
    requires d > 0
    ensures d * (n / d) <= n < d * (n / d) + d
  {
  }

  /** The `k` rows starting at `start`. */
  ghost function Block(table: seq<Row>, start: nat, k: nat): seq<Row>
    requires start + k <= |table|
  {
    table[start..start + k]
  }

  /** The record of one block, or the exception its extraction raises. */
  ghost function BlockRecord(block: seq<Row>, i: nat): Result<Record, Error>
  {
    if block == [] then Failure(EmptyBlock(i))
    else
      match block[0].lead
      case Text(h) => BuildRecord(ParamsOf(h), MeasuredOf(block), i)
      case _ => Failure(HeaderNotText(i))
  }

  /** The rows per block: `len(df) // num_inputs`. */
  function RowsPerInput(table: seq<Row>, n: nat): (k: nat)
    ensures n * k <= |table|
    ensures n > 0 ==> |table| < n * k + n
  {
    if n == 0 then 0 else DivMulLe(|table|, n); |table| / n
  }

  /** What block `i` of `n` yields: its `RowsPerInput` rows starting at row `i * RowsPerInput`. */
  ghost function BlockResult(table: seq<Row>, n: nat, i: nat): Result<Record, Error>
    requires i < n
  {
    var k := RowsPerInput(table, n);
    BlockFits(i, n, k, |table|);
    var start: nat := i * k;
    BlockRecord(Block(table, start, k), i)
  }

  /** What each of the `n` blocks yields, in block order. */
  ghost function BlockResults(table: seq<Row>, n: nat): (rs: seq<Result<Record, Error>>)
    ensures |rs| == n
  {
    seq(n, i requires 0 <= i < n => BlockResult(table, n, i))
  }

  /** What the extraction loop produces for a table and a block count. */
  ghost function Extracted(table: seq<Row>, numInputs: nat): Result<seq<Record>, Error>
  {
    if numInputs == 0 then Failure(NoBlocks) else Results.Collect(BlockResults(table, numInputs))
  }

  /** One pass of the extraction loop: the header of the block's first row, then its measurements. */
  method ExtractBlock(subset: seq<Row>, i: nat) returns (rec: Result<Record, Error>)
    ensures rec == BlockRecord(subset, i)
  {
    if |subset| == 0 {
      return Failure(EmptyBlock(i));
    }
    match subset[0].lead {
      case Text(paramStr) =>
        var params := ParseHeader(paramStr);
        var measured := ScanMeasured(subset);
        rec := BuildRecord(params, measured, i);
      case _ =>
        rec := Failure(HeaderNotText(i));
    }
  }

  /** The extraction loop of the script: one record per block, in block order. */
  method ExtractRecords(table: seq<Row>, numInputs: nat) returns (res: Result<seq<Record>, Error>)
    ensures res == Extracted(table, numInputs)
  {
    if numInputs == 0 {
      return Failure(NoBlocks);
    }
    var rowsPerInput := RowsPerInput(table, numInputs);
    ghost var rs := BlockResults(table, numInputs);
    var processed: seq<Record> := [];
    for i := 0 to numInputs
      invariant Results.Collect(rs[..i]) == Success(processed)
    {
      BlockFits(i, numInputs, rowsPerInput, |table|);
      var startIdx: nat := i * rowsPerInput;
      var endIdx := startIdx + rowsPerInput;
      var subset := table[startIdx..endIdx];
      var rec := ExtractBlock(subset, i);
      BlockResultsAt(table, numInputs, i, startIdx, subset);
      Results.CollectSnoc(rs, i);
      if rec.Failure? {
        res := Failure(rec.error);
        Results.CollectStops(rs, i + 1);
        return;
      }
      processed := processed + [rec.value];
    }
    assert rs[..numInputs] == rs;
    res := Success(processed);
  }

  /** The outcome the loop computes for block `i` is the `i`-th block outcome. */
  lemma BlockResultsAt(table: seq<Row>, n: nat, i: nat, start: nat, subset: seq<Row>)
    requires i < n && start == i * RowsPerInput(table, n)
    requires start + RowsPerInput(table, n) <= |table|
    requires subset == table[start..start + RowsPerInput(table, n)]
    ensures BlockResults(table, n)[i] == BlockRecord(subset, i)
  {
    var k := RowsPerInput(table, n);
    assert Block(table, start, k) == subset;
    assert BlockResult(table, n, i) == BlockRecord(Block(table, start, k), i);
    assert BlockResults(table, n)[i] == BlockResult(table, n, i);
  }

  /** Block `i` is made of the rows `[i * k, i * k + k)`, with `k` the rows per input. */
  lemma BlockRows(table: seq<Row>, n: nat, i: nat)
    requires i < n
    ensures var k := RowsPerInput(table, n);
      && i * k + k <= |table|
      && BlockResult(table, n, i) == BlockRecord(table[i * k..i * k + k], i)
  {
    DivMulLe(|table|, n);
    BlockFits(i, n, RowsPerInput(table, n), |table|);
  }

  /** A successful extraction yields exactly one record per block, block `i`'s record at position `i`. */
  lemma ExtractedRecords(table: seq<Row>, n: nat)
    requires Extracted(table, n).Success?
    ensures |Extracted(table, n).value| == n
    ensures forall i :: 0 <= i < n ==>
      BlockResult(table, n, i).Success? && Extracted(table, n).value[i] == BlockResult(table, n, i).value
  {
    var rs := BlockResults(table, n);
    Results.CollectSuccess(rs);
    assert forall i :: 0 <= i < n ==> rs[i] == BlockResult(table, n, i);
  }

  /** A failed extraction (with blocks to read) reports the exception of the first failing block. */
  lemma ExtractedFailure(table: seq<Row>, n: nat)
    requires n > 0 && Extracted(table, n).Failure?
    ensures exists i :: && 0 <= i < n
                        && BlockResult(table, n, i) == Failure(Extracted(table, n).error)
                        && forall j :: 0 <= j < i ==> BlockResult(table, n, j).Success?
  {
    var rs := BlockResults(table, n);
    Results.CollectFirstFailure(rs);
    var i :| && 0 <= i < |rs|
             && rs[i] == Failure(Results.Collect(rs).error)
             && forall j :: 0 <= j < i ==> rs[j].Success?;
    assert forall j :: 0 <= j < n ==> rs[j] == BlockResult(table, n, j);
  }

  /** Rows after the last full block are never read: two tables that agree on the blocks extract alike. */
  lemma RemainderIgnored(t1: seq<Row>, t2: seq<Row>, n: nat)
    requires |t1| == |t2|
    requires t1[..n * RowsPerInput(t1, n)] == t2[..n * RowsPerInput(t1, n)]
    ensures Extracted(t1, n) == Extracted(t2, n)
  {
    forall i | 0 <= i < n
      ensures BlockResult(t1, n, i) == BlockResult(t2, n, i)
    {
      SameBlock(t1, t2, n, i);
    }
    assert BlockResults(t1, n) == BlockResults(t2, n);
  }

  lemma SameBlock(t1: seq<Row>, t2: seq<Row>, n: nat, i: nat)
    requires |t1| == |t2| && i < n
    requires t1[..n * RowsPerInput(t1, n)] == t2[..n * RowsPerInput(t1, n)]
    ensures BlockResult(t1, n, i) == BlockResult(t2, n, i)
  {
    var k := RowsPerInput(t1, n);
    assert RowsPerInput(t2, n) == k;
    BlockRows(t1, n, i);
    BlockRows(t2, n, i);
    BlockFits(i, n, k, |t1|);
    var lo: nat, hi: nat, m: nat := i * k, i * k + k, n * k;
    SliceOfPrefix(t1, m, lo, hi);
    SliceOfPrefix(t2, m, lo, hi);
    assert t1[lo..hi] == t2[lo..hi];
  }

  /** Solver helper: a slice inside a prefix is the same slice of the whole sequence. */
  lemma SliceOfPrefix<T>(s: seq<T>, m: nat, a: nat, b: nat)
    requires a <= b <= m <= |s|
    ensures s[a..b] == s[..m][a..b]
  {
  }

  /** With fewer rows than blocks, every block is empty and the first one aborts the run. */
  lemma TooFewRows(table: seq<Row>, n: nat)
    requires 0 < n && |table| < n
    ensures Extracted(table, n) == Failure(EmptyBlock(0))
  {
    var rs := BlockResults(table, n);
    assert RowsPerInput(table, n) == 0;
    BlockRows(table, n, 0);
    assert rs[0] == Failure(EmptyBlock(0));
    Results.CollectSnoc(rs, 0);
    assert rs[..0] == [];
    Results.CollectStops(rs, 1);
  }
}
