/** Storage types and their text form, `RS<k,m,b>` and `RE<replications,b>`. */
module StorageText {
  import opened Results
  import opened Text

  datatype StorageType =
    | RS(k: int, m: int, b: int)
    | RE(replications: int, b: int)
  {
    /** check: whether `succ` stored fragments count as safe. */
    predicate Check(succ: int) {
      match this
      case RS(k, _, _) => succ > k
      case RE(_, _) => succ >= 1
    }
  }

  predicate IntFields(t: StorageType) {
    match t
    case RS(k, m, b) => IsInt(k) && IsInt(m) && IsInt(b)
    case RE(r, b) => IsInt(r) && IsInt(b)
  }

  predicate NonNegative(t: StorageType) {
    match t
    case RS(k, m, b) => k >= 0 && m >= 0 && b >= 0
    case RE(r, b) => r >= 0 && b >= 0
  }

  function Fields(t: StorageType): seq<string> {
    match t
    case RS(k, m, b) => [Itoa(k), Itoa(m), Itoa(b)]
    case RE(r, b) => [Itoa(r), Itoa(b)]
  }

  function ToString(t: StorageType): string {
    (if t.RS? then "RS<" else "RE<") + Join(Fields(t), ',') + ">"
  }

  /** One `(\d+)` group. */
  predicate Number(f: string) { f != "" && AllDigits(f) }

  /** The text between the angle brackets, when `s` starts with `tag`. */
  function Body(s: string, tag: string): Option<string>
    requires |tag| == 3
  {
    if |s| >= 4 && s[..3] == tag && s[|s| - 1] == '>' then Some(s[3..|s| - 1]) else None
  }

  /** `regex_match` against `RS<(\d+),(\d+),(\d+)>|RE<(\d+),(\d+)>`, then `stoi` on each group. */
  function FromString(s: string): Result<StorageType, TextError> {
    var rs := Body(s, "RS<");
    var re := Body(s, "RE<");
    if rs.Some? && |Split(rs.value, ',')| == 3 && AllNumbers(Split(rs.value, ',')) then
      var f := Split(rs.value, ',');
      match (Stoi(f[0]), Stoi(f[1]), Stoi(f[2]))
      case (Ok(k), Ok(m), Ok(b)) => Ok(RS(k, m, b))
      case _ => Err(OutOfRange)
    else if re.Some? && |Split(re.value, ',')| == 2 && AllNumbers(Split(re.value, ',')) then
      var f := Split(re.value, ',');
      match (Stoi(f[0]), Stoi(f[1]))
      case (Ok(r), Ok(b)) => Ok(RE(r, b))
      case _ => Err(OutOfRange)
    else
      Err(NoMatch)
  }

  predicate AllNumbers(fields: seq<string>) { forall f | f in fields :: Number(f) }

  lemma {:induction false} NumberIffNonNegative(x: int)
    ensures Number(Itoa(x)) <==> x >= 0
  {
    if x < 0 {
      assert Itoa(x)[0] == '-';
    }
  }

  lemma {:induction false} FieldsAreSplitBack(t: StorageType)
    ensures Split(Join(Fields(t), ','), ',') == Fields(t)
    ensures AllNumbers(Fields(t)) <==> NonNegative(t)
  {
    var fs := Fields(t);
    var xs := match t case RS(k, m, b) => [k, m, b] case RE(r, b) => [r, b];
    forall i | 0 <= i < |fs| ensures fs[i] == Itoa(xs[i]) && Free(fs[i], ',') && (Number(fs[i]) <==> xs[i] >= 0) {
      ItoaFree(xs[i], ',');
      NumberIffNonNegative(xs[i]);
    }
    SplitOfJoin(fs, ',');
    if AllNumbers(fs) {
      forall i | 0 <= i < |fs| ensures xs[i] >= 0 { assert fs[i] in fs; }
      assert xs[0] >= 0 && xs[1] >= 0;
      assert t.RS? ==> xs[2] >= 0;
    }
  }

  lemma {:induction false} BodyOfToString(t: StorageType)
    ensures Body(ToString(t), "RS<") == if t.RS? then Some(Join(Fields(t), ',')) else None
    ensures Body(ToString(t), "RE<") == if t.RE? then Some(Join(Fields(t), ',')) else None
  {
    var tag := if t.RS? then "RS<" else "RE<";
    var s := ToString(t);
    assert s[..3] == tag;
    assert s[3..|s| - 1] == Join(Fields(t), ',');
    assert s[|s| - 1] == '>';
    assert "RS<"[1] == 'S' && "RE<"[1] == 'E';
  }

  /** The parser undoes the printer exactly on the storage types without a negative field. */
  lemma {:induction false} RoundTripIff(t: StorageType)
    requires IntFields(t)
    ensures FromString(ToString(t)) == Ok(t) <==> NonNegative(t)
    ensures !NonNegative(t) ==> FromString(ToString(t)) == Err(NoMatch)
  {
    FieldsAreSplitBack(t);
    BodyOfToString(t);
    match t {
      case RS(k, m, b) => StoiOfItoa(k); StoiOfItoa(m); StoiOfItoa(b);
      case RE(r, b) => StoiOfItoa(r); StoiOfItoa(b);
    }
  }

  lemma {:induction false} SmallestType()
    ensures FromString("RE<1,1>") == Ok(RE(1, 1))
  {
    RoundTripIff(RE(1, 1));
    assert ToString(RE(1, 1)) == "RE<1,1>";
  }

  lemma {:induction false} StoiOfNumber(f: string)
    requires Number(f)
    ensures Stoi(f).Ok? ==> 0 <= Stoi(f).value <= INT_MAX
  {
    assert IsDigit(f[0]);
    assert SkipSpace(f) == f;
    assert DigitPrefix(f) != "";
  }

  /** Whatever text is accepted, the fields are non-negative, so printing and parsing again is stable. */
  lemma {:induction false} ParsedPrintsBack(s: string)
    requires FromString(s).Ok?
    ensures NonNegative(FromString(s).value) && IntFields(FromString(s).value)
    ensures FromString(ToString(FromString(s).value)) == FromString(s)
  {
    var t := FromString(s).value;
    var body := if t.RS? then Body(s, "RS<") else Body(s, "RE<");
    forall f | f in Split(body.value, ',') ensures Stoi(f).Ok? ==> 0 <= Stoi(f).value <= INT_MAX {
      StoiOfNumber(f);
    }
    RoundTripIff(t);
  }

  // ----- which texts are accepted -----

  /** `s` is the tag, then decimal numbers separated by commas, then the closing bracket. */
  ghost predicate IsForm(s: string, tag: string, fields: seq<string>) {
    fields != [] && AllNumbers(fields) && s == tag + Join(fields, ',') + ">"
  }

  lemma {:induction false} NumberFree(f: string)
    requires Number(f)
    ensures Free(f, ',')
  {
  }

  lemma {:induction false} BodyOfForm(s: string, tag: string, fields: seq<string>)
    requires |tag| == 3 && IsForm(s, tag, fields)
    ensures Body(s, tag) == Some(Join(fields, ',')) && Split(Join(fields, ','), ',') == fields
  {
    assert s[..3] == tag && s[|s| - 1] == '>' && s[3..|s| - 1] == Join(fields, ',');
    forall f | f in fields ensures Free(f, ',') { NumberFree(f); }
    SplitOfJoin(fields, ',');
  }

  lemma {:induction false} FormOfBody(s: string, tag: string)
    requires |tag| == 3 && Body(s, tag).Some? && AllNumbers(Split(Body(s, tag).value, ','))
    ensures IsForm(s, tag, Split(Body(s, tag).value, ','))
  {
    var body := Body(s, tag).value;
    JoinOfSplit(body, ',');
    assert s == s[..3] + s[3..|s| - 1] + [s[|s| - 1]];
  }

  /** "RS<" and three numbers, or "RE<" and two: such a text is accepted if its numbers fit into an int. */
  lemma {:induction false} FormIsParsed(s: string, fields: seq<string>)
    ensures IsForm(s, "RS<", fields) && |fields| == 3 ==>
              match (Stoi(fields[0]), Stoi(fields[1]), Stoi(fields[2]))
              case (Ok(k), Ok(m), Ok(b)) => FromString(s) == Ok(RS(k, m, b))
              case _ => FromString(s) == Err(OutOfRange)
    ensures IsForm(s, "RE<", fields) && |fields| == 2 ==>
              match (Stoi(fields[0]), Stoi(fields[1]))
              case (Ok(r), Ok(b)) => FromString(s) == Ok(RE(r, b))
              case _ => FromString(s) == Err(OutOfRange)
  {
    if IsForm(s, "RS<", fields) {
      BodyOfForm(s, "RS<", fields);
    }
    if IsForm(s, "RE<", fields) {
      BodyOfForm(s, "RE<", fields);
      TagsDiffer(s, fields);
    }
  }

  lemma {:induction false} TagsDiffer(s: string, fields: seq<string>)
    requires IsForm(s, "RE<", fields)
    ensures Body(s, "RS<").None?
  {
    assert s[..3][1] == 'E' && "RS<"[1] == 'S';
  }

  /** No other text is. */
  lemma {:induction false} OtherTextIsRefused(s: string)
    requires forall fields | |fields| == 3 :: !IsForm(s, "RS<", fields)
    requires forall fields | |fields| == 2 :: !IsForm(s, "RE<", fields)
    ensures FromString(s) == Err(NoMatch)
  {
    var rs, re := Body(s, "RS<"), Body(s, "RE<");
    if rs.Some? && AllNumbers(Split(rs.value, ',')) {
      FormOfBody(s, "RS<");
    }
    if re.Some? && AllNumbers(Split(re.value, ',')) {
      FormOfBody(s, "RE<");
    }
  }
}
