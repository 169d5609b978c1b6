/** Rust's integer `from_str` and the three scalar helpers of the save
    decoder (src/save.rs:41-115). The save file stores every number as a
    string; each helper re-reads such a string as a `u32`, a `bool` or an
    optional `u32`. */
module Scalars {
  import opened Results
  import opened Toml
  import opened Chars

  type U32 = n: int | 0 <= n < 0x1_0000_0000

  const U32Max: nat := 0xFFFF_FFFF
  const U64Max: nat := 0xFFFF_FFFF_FFFF_FFFF
  /** `usize` on the 64-bit targets the program is built for. */
  const UsizeMax: nat := U64Max
  const I64Min: int := -0x8000_0000_0000_0000
  const I64Max: int := 0x7FFF_FFFF_FFFF_FFFF

  // ---------------------------------------------------------------------
  // Decimal text

  predicate AllDigits(s: string) {
    forall i :: 0 <= i < |s| ==> IsAsciiDigit(s[i])
  }

  /** The number a string of ASCII digits spells, most significant digit first. */
  function DigitsValue(s: string): nat
    requires AllDigits(s)
  {
    if s == [] then 0
    else 10 * DigitsValue(s[..|s| - 1]) + (s[|s| - 1] as int - '0' as int)
  }

  function DigitChar(d: nat): (c: char)
    requires d < 10
    ensures IsAsciiDigit(c) && c as int - '0' as int == d
  {
    ('0' as int + d) as char
  }

  /** The shortest decimal spelling of `n`. */
  function Decimal(n: nat): string {
    if n < 10 then [DigitChar(n)] else Decimal(n / 10) + [DigitChar(n % 10)]
  }

  /** The decimal spelling of an integer of either sign. */
  function Signed(n: int): string {
    if n < 0 then ['-'] + Decimal(-n) else Decimal(n)
  }

  lemma {:induction false} DecimalDigits(n: nat)
    ensures Decimal(n) != [] && AllDigits(Decimal(n)) && DigitsValue(Decimal(n)) == n
  {
    if n >= 10 {
      DecimalDigits(n / 10);
      var s := Decimal(n);
      assert s[..|s| - 1] == Decimal(n / 10);
    }
  }

  // ---------------------------------------------------------------------
  // Rust's `from_str` for integers

  /** `str::parse` for an unsigned type whose largest value is `max`: an
      optional `+`, then at least one ASCII digit, and a value in range. */
  function ParseUnsigned(s: string, max: nat): (r: Option<nat>)
    ensures r.Some? ==> r.value <= max
  {
    if s == [] then None
    else
      var digits := if s[0] == '+' then s[1..] else s;
      if digits != [] && AllDigits(digits) && DigitsValue(digits) <= max then Some(DigitsValue(digits))
      else None
  }

  /** `str::parse` for a signed type with range `min..=max`: an optional `+`
      or `-`, then at least one ASCII digit, and a value in range. */
  function ParseSigned(s: string, min: int, max: int): (r: Option<int>)
    ensures r.Some? ==> min <= r.value <= max
  {
    if s == [] then None
    else
      var negative := s[0] == '-';
      var digits := if s[0] == '+' || negative then s[1..] else s;
      if digits == [] || !AllDigits(digits) then None
      else
        var v: int := if negative then -(DigitsValue(digits) as int) else DigitsValue(digits);
        if min <= v <= max then Some(v) else None
  }

  /** Unsigned parsing reads back exactly the numbers in range, with or
      without a leading `+`. */
  lemma ParseUnsignedDecimal(n: nat, max: nat)
    ensures ParseUnsigned(Decimal(n), max) == if n <= max then Some(n) else None
    ensures ParseUnsigned(['+'] + Decimal(n), max) == if n <= max then Some(n) else None
  {
    DecimalDigits(n);
    assert (['+'] + Decimal(n))[1..] == Decimal(n);
  }

  /** An unsigned type takes no sign other than `+`, and a sign alone is no number. */
  lemma ParseUnsignedRejectsSigns(t: string, max: nat)
    ensures ParseUnsigned(['-'] + t, max) == None
    ensures ParseUnsigned(['+'], max) == None
    ensures ParseUnsigned([], max) == None
  {
    assert !IsAsciiDigit((['-'] + t)[0]);
  }

  /** Signed parsing reads back exactly the numbers in range. */
  lemma ParseSignedDecimal(n: int, min: int, max: int)
    ensures ParseSigned(Signed(n), min, max) == if min <= n <= max then Some(n) else None
  {
    if n < 0 {
      ParseSignedNegative(n, min, max);
    } else {
      ParseSignedNonNegative(n, min, max);
    }
  }

  lemma ParseSignedNegative(n: int, min: int, max: int)
    requires n < 0
    ensures ParseSigned(Signed(n), min, max) == if min <= n <= max then Some(n) else None
  {
    var digits := Decimal(-n);
    DecimalDigits(-n);
    assert (['-'] + digits)[1..] == digits;
  }

  lemma ParseSignedNonNegative(n: int, min: int, max: int)
    requires 0 <= n
    ensures ParseSigned(Signed(n), min, max) == if min <= n <= max then Some(n) else None
  {
    DecimalDigits(n);
    assert IsAsciiDigit(Decimal(n)[0]);
  }

  // ---------------------------------------------------------------------
  // The helpers of the save decoder

  /** `deserialize_u32`: the text of a string value parsed as a `u32`; any
      other text, and any value that is not a string, is of the wrong type. */
  function DeserializeU32(node: Node): (r: Result<U32, DecodeError>)
    ensures r.Err? ==> r.error == InvalidType
  {
    match node
    case Text(s) => (
      match ParseUnsigned(s, U32Max)
      case Some(n) => Ok(n)
      case None => Err(InvalidType))
    case _ => Err(InvalidType)
  }

  /** `deserialize_bool`: the text parsed as a `u64`; 0 is false, 1 is true,
      another number is an invalid value, other text is of the wrong type. */
  function DeserializeBool(node: Node): (r: Result<bool, DecodeError>)
    ensures r.Err? ==> r.error == InvalidType || r.error == InvalidValue
  {
    match node
    case Text(s) => (
      match ParseUnsigned(s, U64Max)
      case Some(0) => Ok(false)
      case Some(1) => Ok(true)
      case Some(_) => Err(InvalidValue)
      case None => Err(InvalidType))
    case _ => Err(InvalidType)
  }

  /** `deserialize_option_u32`: the text parsed as an `i64`; -1 is `None`,
      any other number is kept modulo 2^32 (the truncating `as u32` cast). */
  function DeserializeOptionU32(node: Node): (r: Result<Option<U32>, DecodeError>)
    ensures r.Err? ==> r.error == InvalidType
  {
    match node
    case Text(s) => (
      match ParseSigned(s, I64Min, I64Max)
      case Some(n) => if n == -1 then Ok(None) else Ok(Some(n % 0x1_0000_0000))
      case None => Err(InvalidType))
    case _ => Err(InvalidType)
  }

  /** A plain `String` field: any string value, and nothing else. */
  function DeserializeString(node: Node): (r: Result<string, DecodeError>)
    ensures r.Ok? <==> node.Text?
    ensures r.Ok? ==> r.value == node.s
  {
    match node
    case Text(s) => Ok(s)
    case _ => Err(InvalidType)
  }

  // ---------------------------------------------------------------------
  // How the save file writes these values, and what the helpers read back

  function EncodeU32(n: U32): Node {
    Text(Decimal(n))
  }

  function EncodeBool(b: bool): Node {
    Text(if b then "1" else "0")
  }

  function EncodeOptionU32(o: Option<U32>): Node {
    match o
    case None => Text("-1")
    case Some(n) => Text(Decimal(n))
  }

  /** Every `u32` reads back; a decimal number above `u32::MAX` is of the wrong type. */
  lemma U32Decimal(n: nat)
    ensures n <= U32Max ==> DeserializeU32(Text(Decimal(n))) == Ok(n)
    ensures n > U32Max ==> DeserializeU32(Text(Decimal(n))) == Err(InvalidType)
  {
    ParseUnsignedDecimal(n, U32Max);
  }

  lemma U32RoundTrip(n: U32)
    ensures DeserializeU32(EncodeU32(n)) == Ok(n)
  {
    U32Decimal(n);
  }

  /** Any unsigned number other than 0 and 1 is an invalid value; a number
      beyond `u64::MAX`, a negative number and text that is no number are of
      the wrong type. */
  lemma BoolDecimal(n: nat)
    ensures n == 0 ==> DeserializeBool(Text(Decimal(n))) == Ok(false)
    ensures n == 1 ==> DeserializeBool(Text(Decimal(n))) == Ok(true)
    ensures 1 < n <= U64Max ==> DeserializeBool(Text(Decimal(n))) == Err(InvalidValue)
    ensures U64Max < n ==> DeserializeBool(Text(Decimal(n))) == Err(InvalidType)
    ensures DeserializeBool(Text(['-'] + Decimal(n))) == Err(InvalidType)
    ensures DeserializeBool(Text("x")) == Err(InvalidType)
  {
    ParseUnsignedDecimal(n, U64Max);
    ParseUnsignedRejectsSigns(Decimal(n), U64Max);
    assert !IsAsciiDigit("x"[0]);
  }

  lemma BoolRoundTrip(b: bool)
    ensures DeserializeBool(EncodeBool(b)) == Ok(b)
  {
    if b {
      BoolDecimal(1);
      assert Decimal(1) == "1";
    } else {
      BoolDecimal(0);
      assert Decimal(0) == "0";
    }
  }

  /** -1 is `None`; every other `i64` is truncated to its low 32 bits; text
      that is not an `i64` is of the wrong type. */
  lemma OptionU32Signed(n: int)
    ensures n == -1 ==> DeserializeOptionU32(Text(Signed(n))) == Ok(None)
    ensures I64Min <= n <= I64Max && n != -1 ==>
      DeserializeOptionU32(Text(Signed(n))) == Ok(Some(n % 0x1_0000_0000))
    ensures (n < I64Min || I64Max < n) ==> DeserializeOptionU32(Text(Signed(n))) == Err(InvalidType)
  {
    ParseSignedDecimal(n, I64Min, I64Max);
  }

  lemma OptionU32RoundTrip(o: Option<U32>)
    ensures DeserializeOptionU32(EncodeOptionU32(o)) == Ok(o)
  {
    match o
    case None =>
      OptionU32Signed(-1);
      assert Signed(-1) == "-1";
    case Some(n) =>
      OptionU32Signed(n);
  }

  // ---------------------------------------------------------------------
  // Record fields: absent is an error, present is read by the field's helper

  function FieldU32(entries: seq<(string, Node)>, name: string): Result<U32, DecodeError> {
    match Lookup(entries, name)
    case None => Err(MissingField(name))
    case Some(v) => DeserializeU32(v)
  }

  function FieldBool(entries: seq<(string, Node)>, name: string): Result<bool, DecodeError> {
    match Lookup(entries, name)
    case None => Err(MissingField(name))
    case Some(v) => DeserializeBool(v)
  }

  function FieldOptionU32(entries: seq<(string, Node)>, name: string): Result<Option<U32>, DecodeError> {
    match Lookup(entries, name)
    case None => Err(MissingField(name))
    case Some(v) => DeserializeOptionU32(v)
  }

  function FieldString(entries: seq<(string, Node)>, name: string): Result<string, DecodeError> {
    match Lookup(entries, name)
    case None => Err(MissingField(name))
    case Some(v) => DeserializeString(v)
  }
}
