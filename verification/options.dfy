/**
 * Processing options and their merge (kabomu/quasi_http_utils.py is not part of
 * this model; the rules below are those fixed by tests/tlv/test_quasi_http_utils.py).
 *
 * The per-field rules accept whatever a caller stored in an option field, so their
 * inputs are OptionValues: an integer, text that parse_int_32 reads, or some other
 * object (a list, a dict), which parse_int_32 refuses. A merged ProcessingOptions
 * holds plain integers.
 */
module Options {
  import opened Wrappers
  import opened Errors
  import opened Numbers

  datatype OptionValue = Unset | Int(i: int) | Text(s: string) | Other

  /** The extra connectivity parameters: an opaque key/value map. */
  type Params = map<string, OptionValue>

  datatype ProcessingOptions = ProcessingOptions(
    extraConnectivityParams: Option<Params>,
    maxHeadersSize: Option<int>,
    maxResponseBodySize: Option<int>,
    timeoutMillis: Option<int>)

  predicate IsInt32(v: int) {
    -0x8000_0000 <= v <= 0x7FFF_FFFF
  }

  /** parse_int_32 applied to an option value: integers are range-checked, text is parsed, anything else is refused. */
  function OptionInt32(v: OptionValue): (r: ErrorOr<int>)
    ensures r.Ok? ==> IsInt32(r.value)
    ensures v.Int? ==> (r.Ok? <==> IsInt32(v.i)) && (r.Ok? ==> r.value == v.i)
    ensures v.Text? ==> r == ParseInt32(v.s)
    ensures v.Unset? || v.Other? ==> r.Err?
  {
    match v
    case Int(i) => if IsInt32(i) then Ok(i) else Err(ValueError("integer out of 32-bit range: " + IntToString(i)))
    case Text(s) => ParseInt32(s)
    case _ => Err(ValueError("not an integer"))
  }

  /**
   * _determine_effective_non_zero_integer_option: the preferred value if set and
   * non-zero (a negative one included), otherwise the fallback if set and non-zero,
   * otherwise the default. A set value that is not an int32 is an error.
   */
  function NonZeroOption(preferred: OptionValue, fallback: OptionValue, default: OptionValue): (r: ErrorOr<int>)
  {
    var p :- if preferred.Unset? then Ok(0) else OptionInt32(preferred);
    if p != 0 then Ok(p) else
    var f :- if fallback.Unset? then Ok(0) else OptionInt32(fallback);
    if f != 0 then Ok(f) else OptionInt32(default)
  }

  /**
   * _determine_effective_positive_integer_option: as NonZeroOption, but only a
   * positive value overrides; the default is taken as it is.
   */
  function PositiveOption(preferred: OptionValue, fallback: OptionValue, default: OptionValue): (r: ErrorOr<int>)
  {
    var p :- if preferred.Unset? then Ok(0) else OptionInt32(preferred);
    if p > 0 then Ok(p) else
    var f :- if fallback.Unset? then Ok(0) else OptionInt32(fallback);
    if f > 0 then Ok(f) else OptionInt32(default)
  }

  /** _determine_effective_options: the union of both maps, the preferred entry winning on a shared key. */
  function EffectiveParams(preferred: Option<Params>, fallback: Option<Params>): (r: Params)
    ensures r.Keys == preferred.GetOr(map[]).Keys + fallback.GetOr(map[]).Keys
    ensures forall k :: k in r ==> r[k] == if k in preferred.GetOr(map[]) then preferred.GetOr(map[])[k] else fallback.GetOr(map[])[k]
  {
    fallback.GetOr(map[]) + preferred.GetOr(map[])
  }

  function Lift(v: Option<int>): OptionValue {
    if v.Some? then Int(v.value) else Unset
  }

  /** Every integer field that is set holds an int32. */
  predicate FieldsInt32(o: ProcessingOptions) {
    (o.maxHeadersSize.None? || IsInt32(o.maxHeadersSize.value))
    && (o.maxResponseBodySize.None? || IsInt32(o.maxResponseBodySize.value))
    && (o.timeoutMillis.None? || IsInt32(o.timeoutMillis.value))
  }

  /** Reference reading of the positive rule on two optional integers, 0 when neither side is positive. */
  function FirstPositive(p: Option<int>, f: Option<int>): int {
    if p.Some? && p.value > 0 then p.value
    else if f.Some? && f.value > 0 then f.value
    else 0
  }

  /** Reference reading of the non-zero rule on two optional integers, 0 when both sides are absent or 0. */
  function FirstNonZero(p: Option<int>, f: Option<int>): int {
    if p.Some? && p.value != 0 then p.value
    else if f.Some? && f.value != 0 then f.value
    else 0
  }

  /** The merge of two present option sets, field by field. */
  function Merged(p: ProcessingOptions, f: ProcessingOptions): ProcessingOptions {
    ProcessingOptions(
      Some(EffectiveParams(p.extraConnectivityParams, f.extraConnectivityParams)),
      Some(FirstPositive(p.maxHeadersSize, f.maxHeadersSize)),
      Some(FirstNonZero(p.maxResponseBodySize, f.maxResponseBodySize)),
      Some(FirstNonZero(p.timeoutMillis, f.timeoutMillis)))
  }

  /**
   * merge_processing_options: when either side is absent the other is returned
   * as it is; otherwise each field follows its rule with default 0 — the positive
   * rule for max_headers_size, the non-zero rule for max_response_body_size and
   * timeout_millis — and the parameters are united.
   */
  function MergeProcessingOptions(preferred: Option<ProcessingOptions>, fallback: Option<ProcessingOptions>): (r: ErrorOr<Option<ProcessingOptions>>)
    ensures preferred.None? ==> r == Ok(fallback)
    ensures preferred.Some? && fallback.None? ==> r == Ok(preferred)
    ensures preferred.Some? && fallback.Some? && FieldsInt32(preferred.value) && FieldsInt32(fallback.value) ==>
      r == Ok(Some(Merged(preferred.value, fallback.value)))
    ensures r.Err? ==> preferred.Some? && fallback.Some? && !(FieldsInt32(preferred.value) && FieldsInt32(fallback.value))
  {
    if preferred.None? then Ok(fallback)
    else if fallback.None? then Ok(preferred)
    else
      var p, f := preferred.value, fallback.value;
      LiftedPositive(p.maxHeadersSize, f.maxHeadersSize);
      LiftedNonZero(p.maxResponseBodySize, f.maxResponseBodySize);
      LiftedNonZero(p.timeoutMillis, f.timeoutMillis);
      var maxHeadersSize :- PositiveOption(Lift(p.maxHeadersSize), Lift(f.maxHeadersSize), Int(0));
      var maxResponseBodySize :- NonZeroOption(Lift(p.maxResponseBodySize), Lift(f.maxResponseBodySize), Int(0));
      var timeoutMillis :- NonZeroOption(Lift(p.timeoutMillis), Lift(f.timeoutMillis), Int(0));
      Ok(Some(ProcessingOptions(
        Some(EffectiveParams(p.extraConnectivityParams, f.extraConnectivityParams)),
        Some(maxHeadersSize), Some(maxResponseBodySize), Some(timeoutMillis))))
  }

  /** The positive rule on two optional int32 fields with default 0 is FirstPositive; it can fail only on a field out of range. */
  lemma LiftedPositive(p: Option<int>, f: Option<int>)
    ensures (p.None? || IsInt32(p.value)) && (f.None? || IsInt32(f.value)) ==>
      PositiveOption(Lift(p), Lift(f), Int(0)) == Ok(FirstPositive(p, f))
    ensures PositiveOption(Lift(p), Lift(f), Int(0)).Err? ==> !((p.None? || IsInt32(p.value)) && (f.None? || IsInt32(f.value)))
  {
  }

  /** The non-zero rule on two optional int32 fields with default 0 is FirstNonZero; it can fail only on a field out of range. */
  lemma LiftedNonZero(p: Option<int>, f: Option<int>)
    ensures (p.None? || IsInt32(p.value)) && (f.None? || IsInt32(f.value)) ==>
      NonZeroOption(Lift(p), Lift(f), Int(0)) == Ok(FirstNonZero(p, f))
    ensures NonZeroOption(Lift(p), Lift(f), Int(0)).Err? ==> !((p.None? || IsInt32(p.value)) && (f.None? || IsInt32(f.value)))
  {
  }

  // ---------------------------------------------------------------- properties

  /** Reference reading of the non-zero rule: the first of the three whose int32 value is non-zero wins. */
  lemma NonZeroOptionChoice(preferred: OptionValue, fallback: OptionValue, default: OptionValue)
    ensures OptionInt32(preferred).Ok? && OptionInt32(preferred).value != 0
      ==> NonZeroOption(preferred, fallback, default) == OptionInt32(preferred)
    ensures (preferred.Unset? || OptionInt32(preferred) == Ok(0)) && OptionInt32(fallback).Ok? && OptionInt32(fallback).value != 0
      ==> NonZeroOption(preferred, fallback, default) == OptionInt32(fallback)
    ensures (preferred.Unset? || OptionInt32(preferred) == Ok(0)) && (fallback.Unset? || OptionInt32(fallback) == Ok(0))
      ==> NonZeroOption(preferred, fallback, default) == OptionInt32(default)
    ensures !preferred.Unset? && OptionInt32(preferred).Err? ==> NonZeroOption(preferred, fallback, default).Err?
    ensures NonZeroOption(preferred, fallback, default).Ok? ==> IsInt32(NonZeroOption(preferred, fallback, default).value)
  {
  }

  /** Reference reading of the positive rule: a non-positive preferred or fallback value counts as absent. */
  lemma PositiveOptionChoice(preferred: OptionValue, fallback: OptionValue, default: OptionValue)
    ensures OptionInt32(preferred).Ok? && OptionInt32(preferred).value > 0
      ==> PositiveOption(preferred, fallback, default) == OptionInt32(preferred)
    ensures (preferred.Unset? || (OptionInt32(preferred).Ok? && OptionInt32(preferred).value <= 0))
         && OptionInt32(fallback).Ok? && OptionInt32(fallback).value > 0
      ==> PositiveOption(preferred, fallback, default) == OptionInt32(fallback)
    ensures (preferred.Unset? || (OptionInt32(preferred).Ok? && OptionInt32(preferred).value <= 0))
         && (fallback.Unset? || (OptionInt32(fallback).Ok? && OptionInt32(fallback).value <= 0))
      ==> PositiveOption(preferred, fallback, default) == OptionInt32(default)
    ensures PositiveOption(preferred, fallback, default).Ok? && PositiveOption(preferred, fallback, default).value <= 0
      ==> PositiveOption(preferred, fallback, default) == OptionInt32(default)
  {
  }

  /** A default outside the int32 range, or no default at all, is an error once it is needed. */
  lemma PositiveOptionBadDefault()
    ensures PositiveOption(Unset, Unset, Int(912_144_545_452)).Err?
    ensures PositiveOption(Unset, Unset, Unset).Err?
  {
  }

  /** The rows of the non-zero and positive rule tables whose inputs are integers or absent. */
  lemma OptionRuleVectors()
    ensures NonZeroOption(Int(1), Unset, Int(20)) == Ok(1)
    ensures NonZeroOption(Int(-15), Int(3), Int(-1)) == Ok(-15)
    ensures NonZeroOption(Unset, Int(3), Int(-1)) == Ok(3)
    ensures NonZeroOption(Unset, Unset, Int(-8)) == Ok(-8)
    ensures PositiveOption(Unset, Int(1), Int(30)) == Ok(1)
    ensures PositiveOption(Int(5), Int(3), Int(11)) == Ok(5)
    ensures PositiveOption(Int(-90), Int(3), Int(0)) == Ok(3)
    ensures PositiveOption(Int(-8), Other, Int(10)).Err?
    ensures NonZeroOption(Other, Text("67"), Int(10)).Err?
  {
  }

  lemma ReadsDecimal(v: int, s: string)
    requires IsInt32(v) && s == IntToString(v)
    ensures OptionInt32(Text(s)) == Ok(v)
  {
    ParseInt32RoundTrip(v);
  }

  /** The rows whose inputs are text: "89" and "67" are read by parse_int_32, "6.7" is refused. */
  lemma OptionTextVectors()
    ensures NonZeroOption(Text("89"), Text("67"), Int(10)) == Ok(89)
    ensures NonZeroOption(Unset, Text("67"), Int(0)) == Ok(67)
    ensures PositiveOption(Int(-90), Text("67"), Int(0)) == Ok(67)
  {
    assert IntToString(89) == "89";
    ReadsDecimal(89, "89");
    assert IntToString(67) == "67";
    ReadsDecimal(67, "67");
  }

  lemma OptionBadTextVectors()
    ensures NonZeroOption(Unset, Text("6.7"), Int(0)).Err?
    ensures PositiveOption(Unset, Unset, Text("-7")) == Ok(-7)
  {
    assert "6.7"[1] == '.';
    ParseRejectsNonNumeric("6.7");
    assert IntToString(-7) == "-7";
    ReadsDecimal(-7, "-7");
  }

  /** Merging with an absent side returns the other side itself. */
  lemma MergeWithAbsent(o: Option<ProcessingOptions>)
    ensures MergeProcessingOptions(None, o) == Ok(o)
    ensures MergeProcessingOptions(o, None) == Ok(o)
  {
  }

  /** Two empty option objects merge into all-zero fields and no parameters. */
  lemma MergeEmpty()
    ensures MergeProcessingOptions(Some(ProcessingOptions(None, None, None, None)), Some(ProcessingOptions(None, None, None, None)))
         == Ok(Some(ProcessingOptions(Some(map[]), Some(0), Some(0), Some(0))))
  {
  }

  /** The full-merge vector: headers size 10 over 30, timeout 0 falls back to -1, body size -1 kept over 40. */
  lemma MergeVector()
    ensures MergeProcessingOptions(
      Some(ProcessingOptions(Some(map["scheme" := Text("tht")]), Some(10), Some(-1), Some(0))),
      Some(ProcessingOptions(Some(map["scheme" := Text("htt"), "two" := Int(2)]), Some(30), Some(40), Some(-1))))
      == Ok(Some(ProcessingOptions(Some(map["scheme" := Text("tht"), "two" := Int(2)]), Some(10), Some(-1), Some(-1))))
  {
    var merged := EffectiveParams(Some(map["scheme" := Text("tht")]), Some(map["scheme" := Text("htt"), "two" := Int(2)]));
    assert merged == map["scheme" := Text("tht"), "two" := Int(2)];
  }
}
