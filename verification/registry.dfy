/**
 * The action registry emitted into the generated code (`PrepareActionList`):
 * the i-th action name is turned into an accumulator built with the i-th
 * type. Eleven names are matched exactly; `action_countLiteral_<N>` is matched
 * by prefix and carries the integer `std::stoi` reads from its suffix; any
 * other name is NotImplemented.
 */
module ActionRegistry {
  import opened AggTypes

  /** The accumulator constructors the registry can call. */
  datatype Accumulator =
    | Unique(t: DataType)            // MakeUniqueAction
    | Count                          // MakeCountAction
    | Sum(t: DataType)
    | Avg(t: DataType)
    | Min(t: DataType)
    | Max(t: DataType)
    | SumCount(t: DataType)
    | SumCountMerge(t: DataType)
    | AvgByCount(t: DataType)
    | CountLiteral(n: int)           // MakeCountLiteralAction
    | StddevSampPartial(t: DataType)
    | StddevSampFinal(t: DataType)

  /** The names matched exactly. */
  const ExactNames: set<string> := {
    "action_groupby", "action_count", "action_sum", "action_avg", "action_min", "action_max",
    "action_sum_count", "action_sum_count_merge", "action_avgByCount",
    "action_stddev_samp_partial", "action_stddev_samp_final"
  }

  const IntMin := -0x8000_0000
  const IntMax := 0x7fff_ffff

  // ---------------------------------------------------------------------
  // std::stoi on the countLiteral suffix

  predicate IsSpace(c: char) {
    c == ' ' || c == '\t' || c == '\n' || c == '\U{000B}' || c == '\U{000C}' || c == '\r'
  }

  predicate IsDigit(c: char) {
    '0' <= c <= '9'
  }

  function SkipSpaces(s: string): string
    decreases |s|
  {
    if |s| > 0 && IsSpace(s[0]) then SkipSpaces(s[1..]) else s
  }

  /** The longest prefix of `s` made of decimal digits. */
  function LeadingDigits(s: string): string
    decreases |s|
  {
    if |s| > 0 && IsDigit(s[0]) then [s[0]] + LeadingDigits(s[1..]) else []
  }

  /** The value of a string of decimal digits. */
  function DigitsValue(ds: string): nat
    decreases |ds|
  {
    if |ds| == 0 then 0
    else
      var d := ds[|ds| - 1];
      DigitsValue(ds[..|ds| - 1]) * 10 + (if IsDigit(d) then (d as int - '0' as int) else 0)
  }

  /** An optional sign followed by the longest run of digits at the front
      of `t`; None when there are no such digits. */
  function ParseSigned(t: string): (r: Option<int>) {
    var signed := |t| > 0 && (t[0] == '-' || t[0] == '+');
    var ds := LeadingDigits(if signed then t[1..] else t);
    if |ds| == 0 then None
    else if signed && t[0] == '-' then Some(-(DigitsValue(ds) as int))
    else Some(DigitsValue(ds))
  }

  /** `std::stoi(s)`: skip leading white space, read an optional sign and the
      longest run of digits, ignore the rest; no digits is invalid_argument,
      a value outside `int` is out_of_range. */
  function Stoi(s: string): (r: Result<int>)
    ensures r.Ok? ==> IntMin <= r.value <= IntMax
    ensures r.Err? ==> r.error == StoiInvalidArgument(s) || r.error == StoiOutOfRange(s)
  {
    match ParseSigned(SkipSpaces(s))
    case None => Err(StoiInvalidArgument(s))
    case Some(v) => if v < IntMin || IntMax < v then Err(StoiOutOfRange(s)) else Ok(v)
  }

  function Digit(d: nat): char
    requires d < 10
  {
    ('0' as int + d) as char
  }

  /** Decimal digits of `n`, without leading zeros. */
  function NatDigits(n: nat): (s: string)
    decreases n
  {
    if n < 10 then [Digit(n)] else NatDigits(n / 10) + [Digit(n % 10)]
  }

  /** The decimal form of `n`, as `std::to_string` prints it. */
  function IntToString(n: int): string {
    if n < 0 then "-" + NatDigits(-n) else NatDigits(n)
  }

  lemma {:induction false} NatDigitsShape(n: nat)
    ensures |NatDigits(n)| > 0
    ensures forall i :: 0 <= i < |NatDigits(n)| ==> IsDigit(NatDigits(n)[i])
    ensures DigitsValue(NatDigits(n)) == n
    decreases n
  {
    if n >= 10 {
      NatDigitsShape(n / 10);
      var s := NatDigits(n);
      assert s[..|s| - 1] == NatDigits(n / 10);
    }
  }

  lemma {:induction false} LeadingDigitsOfDigits(s: string)
    requires forall i :: 0 <= i < |s| ==> IsDigit(s[i])
    ensures LeadingDigits(s) == s
    decreases |s|
  {
    if |s| > 0 {
      LeadingDigitsOfDigits(s[1..]);
    }
  }

  /** Digits with no sign in front parse as their value. */
  lemma ParseDigits(s: string)
    requires |s| > 0 && forall i :: 0 <= i < |s| ==> IsDigit(s[i])
    ensures SkipSpaces(s) == s
    ensures ParseSigned(s) == Some(DigitsValue(s) as int)
  {
    LeadingDigitsOfDigits(s);
  }

  /** A minus sign followed by digits parses as the negated value. */
  lemma ParseNegatedDigits(s: string)
    requires |s| > 0 && forall i :: 0 <= i < |s| ==> IsDigit(s[i])
    ensures SkipSpaces("-" + s) == "-" + s
    ensures ParseSigned("-" + s) == Some(-(DigitsValue(s) as int))
  {
    var t := "-" + s;
    assert t[0] == '-' && t[1..] == s;
    LeadingDigitsOfDigits(s);
  }

  /** `std::stoi` reads back every `int` that `IntToString` prints. */
  lemma StoiRoundTrip(n: int)
    requires IntMin <= n <= IntMax
    ensures Stoi(IntToString(n)) == Ok(n)
  {
    if n < 0 {
      NatDigitsShape(-n);
      ParseNegatedDigits(NatDigits(-n));
    } else {
      NatDigitsShape(n);
      ParseDigits(NatDigits(n));
    }
  }

  predicate AllSpaces(ws: string) {
    forall i :: 0 <= i < |ws| ==> IsSpace(ws[i])
  }

  predicate AllDigits(ds: string) {
    forall i :: 0 <= i < |ds| ==> IsDigit(ds[i])
  }

  lemma {:induction false} SkipSpacesOver(ws: string, x: string)
    requires AllSpaces(ws) && (|x| == 0 || !IsSpace(x[0]))
    ensures SkipSpaces(ws + x) == x
    decreases |ws|
  {
    if |ws| == 0 {
      assert ws + x == x;
    } else {
      assert (ws + x)[0] == ws[0];
      assert (ws + x)[1..] == ws[1..] + x;
      SkipSpacesOver(ws[1..], x);
    }
  }

  lemma {:induction false} LeadingDigitsOver(ds: string, rest: string)
    requires AllDigits(ds) && (|rest| == 0 || !IsDigit(rest[0]))
    ensures LeadingDigits(ds + rest) == ds
    decreases |ds|
  {
    if |ds| == 0 {
      assert ds + rest == rest;
    } else {
      assert (ds + rest)[0] == ds[0];
      assert (ds + rest)[1..] == ds[1..] + rest;
      LeadingDigitsOver(ds[1..], rest);
      assert [ds[0]] + ds[1..] == ds;
    }
  }

  /** An optional sign: empty, or a single `+` or `-`. */
  predicate IsSign(sign: string) {
    |sign| <= 1 && (|sign| == 1 ==> sign[0] == '+' || sign[0] == '-')
  }

  /** The value of `ds` under `sign`. */
  function Signed(sign: string, ds: string): int {
    if |sign| == 1 && sign[0] == '-' then -(DigitsValue(ds) as int) else DigitsValue(ds) as int
  }

  /** An optional sign, a run of digits and text not starting with a digit
      parse as the signed value of those digits. */
  lemma ParseSignedReads(sign: string, ds: string, rest: string)
    requires IsSign(sign)
    requires |ds| > 0 && AllDigits(ds) && (|rest| == 0 || !IsDigit(rest[0]))
    ensures ParseSigned(sign + ds + rest) == Some(Signed(sign, ds))
  {
    var t := sign + ds + rest;
    LeadingDigitsOver(ds, rest);
    if |sign| == 0 {
      assert t == ds + rest;
      assert t[0] == ds[0];
    } else {
      assert t[0] == sign[0];
      assert t[1..] == ds + rest;
    }
  }

  /** What `std::stoi` reads from white space, an optional sign, a run of
      digits and any text not starting with a digit: the signed value of
      the digits when it fits an `int`, out_of_range otherwise. */
  lemma StoiReads(ws: string, sign: string, ds: string, rest: string)
    requires AllSpaces(ws) && IsSign(sign)
    requires |ds| > 0 && AllDigits(ds) && (|rest| == 0 || !IsDigit(rest[0]))
    ensures var s := ws + sign + ds + rest;
      var v := Signed(sign, ds);
      Stoi(s) == if IntMin <= v <= IntMax then Ok(v) else Err(StoiOutOfRange(s))
  {
    var t := sign + ds + rest;
    assert ws + sign + ds + rest == ws + t;
    assert t[0] == if |sign| == 0 then ds[0] else sign[0];
    SkipSpacesOver(ws, t);
    ParseSignedReads(sign, ds, rest);
  }

  /** `std::stoi` fails with invalid_argument exactly when no digit follows
      the leading white space and optional sign. */
  lemma StoiNoDigits(s: string)
    ensures var t := SkipSpaces(s);
      var u := if |t| > 0 && (t[0] == '-' || t[0] == '+') then t[1..] else t;
      Stoi(s) == Err(StoiInvalidArgument(s)) <==> |u| == 0 || !IsDigit(u[0])
  {
  }

  // ---------------------------------------------------------------------
  // Name dispatch

  /** Builds the accumulator for one name and type: an exact name builds the
      accumulator it names, with that type when it takes one; a countLiteral
      name carries what `std::stoi` reads from its suffix or fails as that
      does; any other name is NotImplemented. */
  function MakeAction(name: string, t: DataType): (r: Result<Accumulator>)
    ensures r.Ok? && !r.value.CountLiteral? ==> ActionName(r.value) == name
    ensures r.Ok? && TypeOf(r.value).Some? ==> TypeOf(r.value) == Some(t)
    ensures r.Ok? && r.value.CountLiteral? ==>
      HasPrefix(name, CountLiteralPrefix) && Stoi(name[|CountLiteralPrefix|..]) == Ok(r.value.n)
    ensures r.Err? ==>
      r.error == NotImplemented(name) ||
      (HasPrefix(name, CountLiteralPrefix) && Stoi(name[|CountLiteralPrefix|..]) == Err(r.error))
  {
    if name == "action_groupby" then Ok(Unique(t))
    else if name == "action_count" then Ok(Count)
    else if name == "action_sum" then Ok(Sum(t))
    else if name == "action_avg" then Ok(Avg(t))
    else if name == "action_min" then Ok(Min(t))
    else if name == "action_max" then Ok(Max(t))
    else if name == "action_sum_count" then Ok(SumCount(t))
    else if name == "action_sum_count_merge" then Ok(SumCountMerge(t))
    else if name == "action_avgByCount" then Ok(AvgByCount(t))
    else if HasPrefix(name, CountLiteralPrefix) then
      var n :- Stoi(name[|CountLiteralPrefix|..]);
      Ok(CountLiteral(n))
    else if name == "action_stddev_samp_partial" then Ok(StddevSampPartial(t))
    else if name == "action_stddev_samp_final" then Ok(StddevSampFinal(t))
    else Err(NotImplemented(name))
  }

  /** The name that selects an accumulator (the inverse of `MakeAction`). */
  function ActionName(acc: Accumulator): string {
    match acc
    case Unique(_) => "action_groupby"
    case Count => "action_count"
    case Sum(_) => "action_sum"
    case Avg(_) => "action_avg"
    case Min(_) => "action_min"
    case Max(_) => "action_max"
    case SumCount(_) => "action_sum_count"
    case SumCountMerge(_) => "action_sum_count_merge"
    case AvgByCount(_) => "action_avgByCount"
    case CountLiteral(n) => CountLiteralPrefix + IntToString(n)
    case StddevSampPartial(_) => "action_stddev_samp_partial"
    case StddevSampFinal(_) => "action_stddev_samp_final"
  }

  /** The type an accumulator was built with, when it takes one. */
  function TypeOf(acc: Accumulator): Option<DataType> {
    match acc
    case Count => None
    case CountLiteral(_) => None
    case _ => Some(acc.t)
  }

  /** No exact name is also a countLiteral name: each is either shorter than
      the prefix or differs from it at the eighth character. */
  lemma ExactNamesAreNotCountLiterals(name: string)
    requires name in ExactNames
    ensures !HasPrefix(name, CountLiteralPrefix)
  {
    assert |name| < |CountLiteralPrefix| || name[7] != CountLiteralPrefix[7];
  }

  /** Each exact name builds its accumulator. */
  lemma ExactNameBuilds(t: DataType)
    ensures MakeAction("action_groupby", t) == Ok(Unique(t))
    ensures MakeAction("action_count", t) == Ok(Count)
    ensures MakeAction("action_sum", t) == Ok(Sum(t))
    ensures MakeAction("action_avg", t) == Ok(Avg(t))
    ensures MakeAction("action_min", t) == Ok(Min(t))
    ensures MakeAction("action_max", t) == Ok(Max(t))
    ensures MakeAction("action_sum_count", t) == Ok(SumCount(t))
    ensures MakeAction("action_sum_count_merge", t) == Ok(SumCountMerge(t))
    ensures MakeAction("action_avgByCount", t) == Ok(AvgByCount(t))
    ensures MakeAction("action_stddev_samp_partial", t) == Ok(StddevSampPartial(t))
    ensures MakeAction("action_stddev_samp_final", t) == Ok(StddevSampFinal(t))
  {
    ExactNamesAreNotCountLiterals("action_stddev_samp_partial");
    ExactNamesAreNotCountLiterals("action_stddev_samp_final");
  }

  /** The first exact names build accumulators that map back to them. */
  lemma ExactNameActionFirst(name: string, t: DataType)
    requires name in {"action_count", "action_groupby", "action_sum", "action_avg", "action_min"}
    ensures MakeAction(name, t).Ok?
    ensures ActionName(MakeAction(name, t).value) == name
    ensures TypeOf(MakeAction(name, t).value) == (if name == "action_count" then None else Some(t))
  {
    ExactNameBuilds(t);
    if name == "action_count" {
      assert MakeAction(name, t) == Ok(Count);
    } else if name == "action_groupby" {
      assert MakeAction(name, t) == Ok(Unique(t));
    } else if name == "action_sum" {
      assert MakeAction(name, t) == Ok(Sum(t));
    } else if name == "action_avg" {
      assert MakeAction(name, t) == Ok(Avg(t));
    } else {
      assert name == "action_min";
      assert MakeAction(name, t) == Ok(Min(t));
    }
  }

  /** The remaining exact names build accumulators that map back to them. */
  lemma ExactNameActionRest(name: string, t: DataType)
    requires name in {"action_max", "action_sum_count", "action_sum_count_merge",
                     "action_avgByCount", "action_stddev_samp_partial", "action_stddev_samp_final"}
    ensures MakeAction(name, t).Ok?
    ensures ActionName(MakeAction(name, t).value) == name
    ensures TypeOf(MakeAction(name, t).value) == Some(t)
  {
    ExactNameBuilds(t);
    if name == "action_max" {
      assert MakeAction(name, t) == Ok(Max(t));
    } else if name == "action_sum_count" {
      assert MakeAction(name, t) == Ok(SumCount(t));
    } else if name == "action_sum_count_merge" {
      assert MakeAction(name, t) == Ok(SumCountMerge(t));
    } else if name == "action_avgByCount" {
      assert MakeAction(name, t) == Ok(AvgByCount(t));
    } else if name == "action_stddev_samp_partial" {
      assert MakeAction(name, t) == Ok(StddevSampPartial(t));
    } else {
      assert name == "action_stddev_samp_final";
      assert MakeAction(name, t) == Ok(StddevSampFinal(t));
    }
  }

  /** An exact name always succeeds, with the given type when the
      accumulator takes one, and its accumulator maps back to the name. */
  lemma ExactNameAction(name: string, t: DataType)
    requires name in ExactNames
    ensures MakeAction(name, t).Ok?
    ensures ActionName(MakeAction(name, t).value) == name
    ensures TypeOf(MakeAction(name, t).value) == (if name == "action_count" then None else Some(t))
  {
    if name in {"action_count", "action_groupby", "action_sum", "action_avg", "action_min"} {
      ExactNameActionFirst(name, t);
    } else {
      ExactNameActionRest(name, t);
    }
  }

  /** A countLiteral name succeeds exactly when `std::stoi` accepts its
      suffix, and then carries the value read. */
  lemma CountLiteralAction(name: string, t: DataType)
    requires HasPrefix(name, CountLiteralPrefix)
    ensures MakeAction(name, t) ==
      match Stoi(name[|CountLiteralPrefix|..])
      case Ok(n) => Ok(CountLiteral(n))
      case Err(e) => Err(e)
  {
    assert name !in ExactNames by {
      if name in ExactNames {
        ExactNamesAreNotCountLiterals(name);
      }
    }
  }

  /** Exactly the names outside the registry are NotImplemented, and the
      status names them. */
  lemma UnknownNameAction(name: string, t: DataType)
    ensures name !in ExactNames && !HasPrefix(name, CountLiteralPrefix) <==>
      MakeAction(name, t) == Err(NotImplemented(name))
  {
    if name in ExactNames {
      ExactNameAction(name, t);
    } else if HasPrefix(name, CountLiteralPrefix) {
      CountLiteralAction(name, t);
    }
  }

  /** Every accumulator is selected by its own name (countLiteral values are
      those `int` can hold), whatever type accompanies a count. */
  lemma NameRoundTrip(acc: Accumulator, t: DataType)
    requires acc.CountLiteral? ==> IntMin <= acc.n <= IntMax
    requires TypeOf(acc).Some? ==> t == TypeOf(acc).value
    ensures MakeAction(ActionName(acc), t) == Ok(acc)
  {
    var name := ActionName(acc);
    if acc.CountLiteral? {
      assert name[..|CountLiteralPrefix|] == CountLiteralPrefix;
      assert name[|CountLiteralPrefix|..] == IntToString(acc.n);
      StoiRoundTrip(acc.n);
      CountLiteralAction(name, t);
    } else {
      assert name in ExactNames;
      ExactNameAction(name, t);
    }
  }

  /** `i` is the first position whose name and type build no accumulator. */
  predicate FirstFailure(names: seq<string>, types: seq<DataType>, i: int)
    requires |names| <= |types|
  {
    && 0 <= i < |names|
    && MakeAction(names[i], types[i]).Err?
    && forall j :: 0 <= j < i ==> MakeAction(names[j], types[j]).Ok?
  }

  /** `PrepareActionList`: builds the accumulators in order, the i-th from
      the i-th name and the i-th type, stopping at the first failure. */
  function PrepareActionList(names: seq<string>, types: seq<DataType>): (r: Result<seq<Accumulator>>)
    requires |names| <= |types|
    ensures r.Ok? <==> forall i :: 0 <= i < |names| ==> MakeAction(names[i], types[i]).Ok?
    ensures r.Ok? ==>
      |r.value| == |names| && forall i :: 0 <= i < |names| ==> MakeAction(names[i], types[i]) == Ok(r.value[i])
    ensures r.Err? ==>
      exists i :: FirstFailure(names, types, i) && MakeAction(names[i], types[i]) == Err(r.error)
    decreases |names|
  {
    if |names| == 0 then Ok([])
    else
      var k := |names| - 1;
      var prior :- PrepareActionList(names[..k], types);
      var acc :- MakeAction(names[k], types[k]);
      Ok(prior + [acc])
  }
}
