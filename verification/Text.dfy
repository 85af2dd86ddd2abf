/** Text primitives shared by the printers and parsers: decimal numbers as
    `std::to_string` and `std::stoi` treat them, and `std::getline` splitting. */
module Text {
  import opened Results

  datatype TextError = InvalidArgument | OutOfRange | NoMatch

  const INT_MIN := -0x8000_0000
  const INT_MAX := 0x7fff_ffff

  predicate IsInt(x: int) { INT_MIN <= x <= INT_MAX }

  predicate IsDigit(c: char) { '0' <= c <= '9' }

  predicate AllDigits(s: string) { forall i | 0 <= i < |s| :: IsDigit(s[i]) }

  function DigitChar(d: nat): (c: char)
    requires d < 10
    ensures IsDigit(c)
  {
    '0' + d as char
  }

  function DigitValue(c: char): nat
    requires IsDigit(c)
  {
    (c - '0') as nat
  }

  // ----- numbers -----

  function Decimal(n: nat): (s: string)
    ensures s != "" && AllDigits(s)
  {
    if n < 10 then [DigitChar(n)] else Decimal(n / 10) + [DigitChar(n % 10)]
  }

  function Value(s: string): nat
    requires AllDigits(s)
  {
    if s == "" then 0 else 10 * Value(s[..|s| - 1]) + DigitValue(s[|s| - 1])
  }

  lemma {:induction false} ValueOfDecimal(n: nat)
    ensures Value(Decimal(n)) == n
  {
    if n >= 10 {
      var s := Decimal(n);
      assert s[..|s| - 1] == Decimal(n / 10);
      ValueOfDecimal(n / 10);
    } else {
      assert Decimal(n)[..0] == "";
    }
  }

  function Itoa(x: int): string {
    if x < 0 then "-" + Decimal(-x) else Decimal(x)
  }

  predicate IsSpace(c: char) { c in " \t\n\U{000b}\U{000c}\r" }

  function SkipSpace(s: string): string {
    if s != "" && IsSpace(s[0]) then SkipSpace(s[1..]) else s
  }

  /** The longest prefix made of digits. */
  function DigitPrefix(s: string): (d: string)
    ensures AllDigits(d)
  {
    if s != "" && IsDigit(s[0]) then [s[0]] + DigitPrefix(s[1..]) else ""
  }

  /** `std::stoi`: leading white space, an optional sign, then digits; whatever follows is ignored. */
  function Stoi(s: string): Result<int, TextError> {
    var t := SkipSpace(s);
    var signed := t != "" && (t[0] == '-' || t[0] == '+');
    var d := DigitPrefix(if signed then t[1..] else t);
    if d == "" then Err(InvalidArgument) else
      var magnitude: int := Value(d);
      var v := if signed && t[0] == '-' then -magnitude else magnitude;
      if IsInt(v) then Ok(v) else Err(OutOfRange)
  }

  lemma {:induction false} DigitPrefixOfDigits(s: string)
    requires AllDigits(s)
    ensures DigitPrefix(s) == s
  {
    if s != "" {
      DigitPrefixOfDigits(s[1..]);
      assert s == [s[0]] + s[1..];
    }
  }

  /** `std::stoi` reads back every `int` that `std::to_string` prints. */
  lemma {:induction false} StoiOfItoa(x: int)
    requires IsInt(x)
    ensures Stoi(Itoa(x)) == Ok(x)
  {
    var s := Itoa(x);
    var digits := if x < 0 then s[1..] else s;
    assert digits == Decimal(if x < 0 then -x else x);
    assert IsDigit(digits[0]);
    assert SkipSpace(s) == s;
    DigitPrefixOfDigits(digits);
    ValueOfDecimal(if x < 0 then -x else x);
  }

  // ----- splitting -----

  predicate Free(s: string, d: char) { d !in s }

  function IndexOf(s: string, d: char): (i: nat)
    ensures i <= |s| && Free(s[..i], d) && (i < |s| ==> s[i] == d)
  {
    if s == "" || s[0] == d then 0 else
      var i := 1 + IndexOf(s[1..], d);
      assert s[..i] == [s[0]] + s[1..][..i - 1];
      i
  }

  /** Every field between delimiters, empty ones included. */
  function Split(s: string, d: char): (fields: seq<string>)
    ensures fields != [] && forall f | f in fields :: Free(f, d)
    decreases |s|
  {
    var i := IndexOf(s, d);
    if i == |s| then [s] else [s[..i]] + Split(s[i + 1..], d)
  }

  /** The lines a `getline(stream, token, d)` loop yields: a final empty field is never seen. */
  function Lines(s: string, d: char): (tokens: seq<string>)
    ensures forall t | t in tokens :: Free(t, d)
  {
    var fields := Split(s, d);
    if fields[|fields| - 1] == "" then fields[..|fields| - 1] else fields
  }

  function Join(fields: seq<string>, d: char): string
    requires fields != []
  {
    if |fields| == 1 then fields[0] else fields[0] + [d] + Join(fields[1..], d)
  }

  lemma {:induction false} IndexOfAppended(f: string, d: char, rest: string)
    requires Free(f, d)
    ensures IndexOf(f + [d] + rest, d) == |f|
    ensures IndexOf(f, d) == |f|
  {
    var s := f + [d] + rest;
    assert forall k | 0 <= k < |f| :: s[k] == f[k];
    assert s[|f|] == d;
  }

  lemma {:induction false} SplitFirst(f: string, d: char, rest: string)
    requires Free(f, d)
    ensures Split(f + [d] + rest, d) == [f] + Split(rest, d)
  {
    var s := f + [d] + rest;
    IndexOfAppended(f, d, rest);
    assert s[..|f|] == f && s[|f| + 1..] == rest;
  }

  lemma {:induction false} SplitOne(f: string, d: char)
    requires Free(f, d)
    ensures Split(f, d) == [f]
  {
    IndexOfAppended(f, d, "");
  }

  lemma {:induction false} SplitOfJoin(fields: seq<string>, d: char)
    requires fields != []
    requires forall f | f in fields :: Free(f, d)
    ensures Split(Join(fields, d), d) == fields
  {
    if |fields| == 1 {
      SplitOne(fields[0], d);
    } else {
      assert Split(Join(fields[1..], d), d) == fields[1..] by { SplitOfJoin(fields[1..], d); }
      SplitFirst(fields[0], d, Join(fields[1..], d));
      assert fields == [fields[0]] + fields[1..];
    }
  }

  lemma {:induction false} LinesOfJoin(fields: seq<string>, d: char)
    requires fields != []
    requires forall f | f in fields :: Free(f, d)
    requires fields[|fields| - 1] != ""
    ensures Lines(Join(fields, d), d) == fields
  {
    SplitOfJoin(fields, d);
  }

  lemma {:induction false} JoinSnoc(fields: seq<string>, last: string, d: char)
    requires fields != []
    ensures Join(fields + [last], d) == Join(fields, d) + [d] + last
  {
    if |fields| > 1 {
      assert (fields + [last])[1..] == fields[1..] + [last];
      JoinSnoc(fields[1..], last, d);
    } else {
      assert (fields + [last])[1..] == [last];
    }
  }

  lemma {:induction false} DecimalFree(n: nat, d: char)
    requires !IsDigit(d)
    ensures Free(Decimal(n), d)
  {
  }

  lemma {:induction false} ItoaFree(x: int, d: char)
    requires !IsDigit(d) && d != '-'
    ensures Free(Itoa(x), d) && Itoa(x) != ""
  {
    DecimalFree(if x < 0 then -x else x, d);
  }

  /** The fields, each followed by the delimiter. */
  function Terminated(fields: seq<string>, d: char): string { if fields == [] then "" else Join(fields, d) + [d] }

  lemma {:induction false} TerminatedSnoc(fields: seq<string>, field: string, d: char)
    ensures Terminated(fields + [field], d) == Terminated(fields, d) + field + [d]
  {
    if fields != [] {
      JoinSnoc(fields, field, d);
    }
  }

  /** Splitting loses nothing. */
  lemma {:induction false} JoinOfSplit(s: string, d: char)
    ensures Join(Split(s, d), d) == s
    decreases |s|
  {
    var i := IndexOf(s, d);
    if i < |s| {
      var rest := Split(s[i + 1..], d);
      JoinOfSplit(s[i + 1..], d);
      assert ([s[..i]] + rest)[1..] == rest;
      assert s == s[..i] + [d] + s[i + 1..];
    }
  }

  lemma {:induction false} TerminatedIsJoin(fields: seq<string>, d: char)
    ensures Terminated(fields, d) == Join(fields + [""], d)
  {
    if fields != [] {
      JoinSnoc(fields, "", d);
    }
  }

  /** A delimiter at the end starts no further token. */
  lemma {:induction false} LinesOfTerminated(fields: seq<string>, d: char)
    requires forall i | 0 <= i < |fields| :: Free(fields[i], d)
    ensures Lines(Terminated(fields, d), d) == fields
  {
    TerminatedIsJoin(fields, d);
    SplitOfJoin(fields + [""], d);
    assert (fields + [""])[..|fields|] == fields;
  }

  // ----- what std::stoi makes of other text -----

  lemma {:induction false} SkipAll(spaces: string, rest: string)
    requires (forall i | 0 <= i < |spaces| :: IsSpace(spaces[i])) && (rest == "" || !IsSpace(rest[0]))
    ensures SkipSpace(spaces + rest) == rest
  {
    if spaces == "" {
      assert spaces + rest == rest;
    } else {
      assert (spaces + rest)[1..] == spaces[1..] + rest;
      SkipAll(spaces[1..], rest);
    }
  }

  lemma {:induction false} DigitPrefixStops(digits: string, rest: string)
    requires AllDigits(digits) && (rest == "" || !IsDigit(rest[0]))
    ensures DigitPrefix(digits + rest) == digits
  {
    if digits == "" {
      assert digits + rest == rest;
    } else {
      assert (digits + rest)[1..] == digits[1..] + rest;
      DigitPrefixStops(digits[1..], rest);
      assert digits == [digits[0]] + digits[1..];
    }
  }

  /** White space is skipped, a minus sign counts, what follows the digits is ignored, and a number that is no int is refused. */
  lemma {:induction false} StoiReads(spaces: string, minus: bool, digits: string, rest: string)
    requires forall i | 0 <= i < |spaces| :: spaces[i] in " \t\n\r"
    requires digits != "" && AllDigits(digits) && (rest == "" || !IsDigit(rest[0]))
    ensures var x: int := if minus then 0 - Value(digits) else Value(digits);
            Stoi(spaces + (if minus then "-" else "") + digits + rest) ==
              if -0x8000_0000 <= x < 0x8000_0000 then Ok(x) else Err(OutOfRange)
  {
    var body := (if minus then "-" else "") + digits + rest;
    assert spaces + (if minus then "-" else "") + digits + rest == spaces + body;
    assert body[0] == if minus then '-' else digits[0];
    SkipAll(spaces, body);
    assert (if minus then body[1..] else body) == digits + rest;
    DigitPrefixStops(digits, rest);
  }

  /** Without a digit up front there is nothing to read. */
  lemma {:induction false} StoiNeedsDigit(s: string)
    requires s == "" || !(IsSpace(s[0]) || s[0] in "+-" || IsDigit(s[0]))
    ensures Stoi(s) == Err(InvalidArgument)
  {
  }
}
