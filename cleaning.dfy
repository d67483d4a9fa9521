/**
 * The two cleaning passes over the extracted records: first the rows whose
 * gate-voltage text sorts before the drain-voltage text are removed; then
 * both voltages are converted to numbers, attached as two new columns, and
 * the rows whose numeric gate voltage is below the numeric drain voltage
 * are removed. A missing number compares false, so it never removes a row.
 */
module Cleaning {
  import opened Wrappers
  import opened Text
  import opened Table
  import opened Numbers
  import opened Extract
  import opened Filters

  // ------------------------------------------------------- string pass

  /** The string mask: a record stays unless its gate voltage sorts before its drain voltage. */
  predicate StringKeep(r: Record)
  {
    !LexLess(r.gateVoltage, r.drainVoltage)
  }

  /** The first cleaning pass: the records that pass the string mask, in their order. */
  function StringPass(rs: seq<Record>): (out: seq<Record>)
    ensures IsSubseq(out, rs)
    ensures forall i :: 0 <= i < |out| ==> !LexLess(out[i].gateVoltage, out[i].drainVoltage)
  {
    FilterSubseq(rs, StringKeep);
    Filter(rs, StringKeep)
  }

  /** A record survives the string pass exactly when it is an input whose gate text does not sort first. */
  lemma StringPassMembers(rs: seq<Record>, r: Record)
    ensures r in StringPass(rs) <==> r in rs && !LexLess(r.gateVoltage, r.drainVoltage)
  {
    FilterMembers(rs, StringKeep, r);
  }

  /** The string pass is the largest order-preserving selection of records that pass the mask. */
  lemma StringPassMaximal(rs: seq<Record>, sel: seq<Record>)
    requires IsSubseq(sel, rs)
    requires forall i :: 0 <= i < |sel| ==> !LexLess(sel[i].gateVoltage, sel[i].drainVoltage)
    ensures IsSubseq(sel, StringPass(rs))
  {
    FilterMaximal(rs, StringKeep, sel);
  }

  /** Running the string pass on its own output removes nothing. */
  lemma StringPassIdempotent(rs: seq<Record>)
    ensures StringPass(StringPass(rs)) == StringPass(rs)
  {
    FilterIdempotent(rs, StringKeep);
  }

  // ------------------------------------------------------ numeric pass

  /** A record with its two added columns, `gate_voltage_num` and `drain_voltage_num`. */
  datatype Converted = Converted(record: Record, gateNum: Option<real>, drainNum: Option<real>)

  /** The two `apply(convert_to_float)` columns of one row. */
  function Annotate(r: Record): Converted
  {
    Converted(r, ConvertToFloat(Text(r.gateVoltage)), ConvertToFloat(Text(r.drainVoltage)))
  }

  /** `<` on the numeric columns: false whenever either side is missing. */
  predicate NumLess(a: Option<real>, b: Option<real>)
  {
    a.Some? && b.Some? && a.value < b.value
  }

  predicate NumericKeep(c: Converted)
  {
    !NumLess(c.gateNum, c.drainNum)
  }

  /** The numeric mask applied to a record before its columns are attached. */
  predicate NumericKeepRecord(r: Record)
  {
    NumericKeep(Annotate(r))
  }

  /** The second cleaning pass: attach the two numeric columns, then keep the rows that pass the numeric mask. */
  function NumericPass(rs: seq<Record>): seq<Converted>
  {
    Filter(Map(rs, Annotate), NumericKeep)
  }

  function Records(cs: seq<Converted>): seq<Record>
  {
    Map(cs, (c: Converted) => c.record)
  }

  lemma {:induction false} RecordsOfAnnotated(rs: seq<Record>)
    ensures Records(Map(rs, Annotate)) == rs
  {
    var back := Records(Map(rs, Annotate));
    assert |back| == |rs|;
    assert forall i :: 0 <= i < |rs| ==> back[i] == rs[i];
  }

  /**
   * The numeric pass keeps exactly the input records whose converted
   * voltages are not in the wrong order, unchanged and in their order, and
   * each carries the conversions of its own voltage texts.
   */
  lemma NumericPassSelects(rs: seq<Record>)
    ensures NumericPass(rs) == Map(Filter(rs, NumericKeepRecord), Annotate)
    ensures Records(NumericPass(rs)) == Filter(rs, NumericKeepRecord)
    ensures forall i :: 0 <= i < |NumericPass(rs)| ==>
      NumericPass(rs)[i].gateNum == ConvertToFloat(Text(NumericPass(rs)[i].record.gateVoltage)) &&
      NumericPass(rs)[i].drainNum == ConvertToFloat(Text(NumericPass(rs)[i].record.drainVoltage))
  {
    NumericPassMaps(rs);
    RecordsOfAnnotated(Filter(rs, NumericKeepRecord));
  }

  /** Filtering the annotated rows is annotating the rows that pass the mask. */
  lemma {:induction false} NumericPassMaps(rs: seq<Record>)
    ensures NumericPass(rs) == Map(Filter(rs, NumericKeepRecord), Annotate)
  {
    if rs != [] {
      var m := Map(rs, Annotate);
      assert m[0] == Annotate(rs[0]);
      assert m[1..] == Map(rs[1..], Annotate);
      NumericPassMaps(rs[1..]);
    }
  }

  /** A record survives the numeric pass exactly when it is an input whose numeric gate voltage is not below its drain voltage. */
  lemma NumericPassMembers(rs: seq<Record>, r: Record)
    ensures r in Records(NumericPass(rs)) <==> r in rs && !NumLess(Annotate(r).gateNum, Annotate(r).drainNum)
  {
    NumericPassSelects(rs);
    FilterMembers(rs, NumericKeepRecord, r);
  }

  /** A voltage that does not convert never causes a removal. */
  lemma UnreadableKept(rs: seq<Record>, r: Record)
    requires r in rs
    requires ConvertToFloat(Text(r.gateVoltage)).None? || ConvertToFloat(Text(r.drainVoltage)).None?
    ensures Annotate(r) in NumericPass(rs)
  {
    assert Annotate(r) in Map(rs, Annotate) by {
      var i :| 0 <= i < |rs| && rs[i] == r;
      assert Map(rs, Annotate)[i] == Annotate(r);
    }
    FilterMembers(Map(rs, Annotate), NumericKeep, Annotate(r));
  }

  /** Running the numeric pass again on the records it kept gives the same rows. */
  lemma NumericPassIdempotent(rs: seq<Record>)
    ensures NumericPass(Records(NumericPass(rs))) == NumericPass(rs)
  {
    NumericPassSelects(rs);
    var kept := Filter(rs, NumericKeepRecord);
    NumericPassSelects(kept);
    FilterIdempotent(rs, NumericKeepRecord);
  }

  // ---------------------------------------------------------- examples

  /** A record whose only non-default fields are its two voltage texts. */
  function WithVoltages(gate: string, drain: string): Record
  {
    Record(
      resistance := Text(""), width1 := Text(""), length1 := "", width2 := Text(""), length2 := "",
      gateVoltage := gate, drainVoltage := drain, sourceVoltage := "", currentSourceVoltage := "",
      power := Text(""), speed := Text(""), gain := Text(""), topology := Topology)
  }

  /** Gate "1m" and drain "2m": 0.001 < 0.002, so the numeric pass removes the row. */
  lemma NumericDropsExample()
    ensures !NumericKeepRecord(WithVoltages("1m", "2m"))
  {
    assert NatString(1) + Repeat('m', 1) == "1m" by { assert Repeat('m', 1) == "m"; }
    assert NatString(2) + Repeat('m', 1) == "2m" by { assert Repeat('m', 1) == "m"; }
    ConvertSuffixed(1, 'm', 1);
    ConvertSuffixed(2, 'm', 1);
  }

  /**
   * Gate "7" and drain "8m": the text "7" sorts before "8m", so the string
   * pass removes a row whose gate voltage 7 is numerically above 0.008.
   */
  lemma StringPassDropsNumericallyValid()
    ensures !StringKeep(WithVoltages("7", "8m"))
    ensures NumericKeepRecord(WithVoltages("7", "8m"))
  {
    assert NatString(7) == "7";
    ConvertPlain(7);
    assert NatString(8) + Repeat('m', 1) == "8m" by { assert Repeat('m', 1) == "m"; }
    ConvertSuffixed(8, 'm', 1);
  }

  /**
   * Gate "9m" and drain "10m": "9m" does not sort before "10m", so only the
   * numeric pass (0.009 < 0.010) removes the row.
   */
  lemma OnlyNumericPassDrops()
    ensures StringKeep(WithVoltages("9m", "10m"))
    ensures !NumericKeepRecord(WithVoltages("9m", "10m"))
  {
    assert NatString(9) + Repeat('m', 1) == "9m" by { assert Repeat('m', 1) == "m"; }
    assert NatString(10) == "10" by { assert NatString(1) == "1"; }
    assert NatString(10) + Repeat('m', 1) == "10m" by { assert Repeat('m', 1) == "m"; }
    ConvertSuffixed(9, 'm', 1);
    ConvertSuffixed(10, 'm', 1);
  }

  // ---------------------------------------------------------- pipeline

  /** The rows of the final cleaned output, or the exception that stops the script first. */
  ghost function Cleaned(table: seq<Row>, numInputs: nat): Result<seq<Converted>, Error>
  {
    match Extracted(table, numInputs)
    case Failure(e) => Failure(e)
    case Success(rs) => Success(NumericPass(StringPass(rs)))
  }

  /** The whole script after reading the table: extraction, then the string pass, then the numeric pass. */
  method Convert(table: seq<Row>, numInputs: nat) returns (res: Result<seq<Converted>, Error>)
    ensures res == Cleaned(table, numInputs)
  {
    var extracted := ExtractRecords(table, numInputs);
    match extracted {
      case Failure(e) =>
        res := Failure(e);
      case Success(processed) =>
        var cleaned := StringPass(processed);
        res := Success(NumericPass(cleaned));
    }
  }

  /**
   * The final rows are at most one per block, are extracted records in
   * block order, and satisfy both masks.
   */
  lemma CleanedRows(table: seq<Row>, numInputs: nat)
    requires Cleaned(table, numInputs).Success?
    ensures var out := Cleaned(table, numInputs).value;
      && |out| <= numInputs
      && IsSubseq(Records(out), Extracted(table, numInputs).value)
      && forall i :: 0 <= i < |out| ==>
           !LexLess(out[i].record.gateVoltage, out[i].record.drainVoltage) &&
           !NumLess(out[i].gateNum, out[i].drainNum)
  {
    var rs := Extracted(table, numInputs).value;
    ExtractedRecords(table, numInputs);
    var sp := StringPass(rs);
    NumericPassSelects(sp);
    FilterSubseq(sp, NumericKeepRecord);
    SubseqTrans(Records(NumericPass(sp)), sp, rs);
    SubseqLength(Records(NumericPass(sp)), rs);
    var out := NumericPass(sp);
    forall i | 0 <= i < |out|
      ensures !LexLess(out[i].record.gateVoltage, out[i].record.drainVoltage)
    {
      assert Records(out)[i] == out[i].record;
      FilterMembers(sp, NumericKeepRecord, out[i].record);
      StringPassMembers(rs, out[i].record);
    }
  }
}
