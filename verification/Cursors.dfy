/** Page cursors: the text `v1.<expiration>.<handle>` and its reading back. */
module Cursors {
  import opened Common

  predicate IsDigit(c: char) {
    '0' <= c <= '9'
  }

  predicate IsHandleChar(c: char) {
    'a' <= c <= 'z' || IsDigit(c)
  }

  /** Three to sixty-three lower-case letters and digits. */
  predicate IsCanonicalHandle(h: string) {
    3 <= |h| <= 63 && forall i :: 0 <= i < |h| ==> IsHandleChar(h[i])
  }

  function Digit(d: nat): char
    requires d < 10
  {
    '0' + d as char
  }

  function DigitValue(c: char): nat
    requires IsDigit(c)
  {
    c as int - '0' as int
  }

  /** A number in decimal, without leading zeros. */
  function Decimal(n: nat): string {
    if n < 10 then [Digit(n)] else Decimal(n / 10) + [Digit(n % 10)]
  }

  const VERSION: string := "v1."

  function EncodeCursor(expiration: nat, handle: string): string {
    VERSION + Decimal(expiration) + "." + handle
  }

  /** The number a string of digits spells. */
  function Spelled(s: string): nat
    requires forall i :: 0 <= i < |s| ==> IsDigit(s[i])
  {
    if s == [] then 0 else 10 * Spelled(s[..|s| - 1]) + DigitValue(s[|s| - 1])
  }

  /** Reading an unsigned number: an optional plus sign, at least one digit, and no overflow. */
  function ParseU64(s: string): Option<nat> {
    var digits := if s != [] && s[0] == '+' then s[1..] else s;
    if digits == [] || exists i :: 0 <= i < |digits| && !IsDigit(digits[i]) then None
    else if Spelled(digits) > MAX_U64 then None
    else Some(Spelled(digits))
  }

  /** Position of the first dot; the length when there is none. */
  function FirstDot(s: string): (i: nat)
    ensures i <= |s| && (i < |s| ==> s[i] == '.')
    ensures forall j :: 0 <= j < i ==> s[j] != '.'
  {
    if s == [] || s[0] == '.' then 0 else 1 + FirstDot(s[1..])
  }

  function DecodeCursor(cursor: string): Option<(nat, string)> {
    if VERSION <= cursor then DecodeFields(cursor[|VERSION|..]) else None
  }

  function DecodeFields(rest: string): Option<(nat, string)> {
    var dot := FirstDot(rest);
    if dot == |rest| then None
    else
      var handle := rest[dot + 1..];
      match ParseU64(rest[..dot])
      case None => None
      case Some(expiration) => if IsCanonicalHandle(handle) then Some((expiration, handle)) else None
  }

  lemma {:induction false} DecimalSpells(n: nat)
    ensures Decimal(n) != [] && forall i :: 0 <= i < |Decimal(n)| ==> IsDigit(Decimal(n)[i])
    ensures Spelled(Decimal(n)) == n
  {
    if n >= 10 {
      DecimalSpells(n / 10);
      assert Decimal(n)[..|Decimal(n)| - 1] == Decimal(n / 10);
    } else {
      assert Decimal(n)[..0] == [];
    }
  }

  lemma DotAt(front: string, back: string)
    requires forall i :: 0 <= i < |front| ==> front[i] != '.'
    ensures FirstDot(front + "." + back) == |front|
  {
    var s := front + "." + back;
    assert s[|front|] == '.';
    assert forall i :: 0 <= i < |front| ==> s[i] == front[i];
  }

  lemma DecimalParses(n: nat)
    requires n <= MAX_U64
    ensures ParseU64(Decimal(n)) == Some(n)
  {
    DecimalSpells(n);
    assert IsDigit(Decimal(n)[0]);
  }

  lemma FieldsReadBack(number: string, expiration: nat, handle: string)
    requires ParseU64(number) == Some(expiration) && forall i :: 0 <= i < |number| ==> number[i] != '.'
    ensures DecodeFields(number + "." + handle)
         == if IsCanonicalHandle(handle) then Some((expiration, handle)) else None
  {
    var rest := number + "." + handle;
    DotAt(number, handle);
    assert rest[..|number|] == number && rest[|number| + 1..] == handle;
  }

  /** A cursor reads back as what was written exactly when its handle is canonical; otherwise it is refused. */
  lemma CursorRoundTrip(expiration: nat, handle: string)
    requires expiration <= MAX_U64
    ensures DecodeCursor(EncodeCursor(expiration, handle))
         == if IsCanonicalHandle(handle) then Some((expiration, handle)) else None
  {
    var fields := Decimal(expiration) + "." + handle;
    assert EncodeCursor(expiration, handle) == VERSION + fields;
    assert (VERSION + fields)[|VERSION|..] == fields;
    DecimalSpells(expiration);
    DecimalParses(expiration);
    FieldsReadBack(Decimal(expiration), expiration, handle);
  }

  /** Whatever a cursor decodes to, encoding that and decoding again gives it back. */
  lemma DecodeIsStable(cursor: string)
    requires DecodeCursor(cursor).Some?
    ensures
      var (expiration, handle) := DecodeCursor(cursor).value;
      && expiration <= MAX_U64 && IsCanonicalHandle(handle)
      && DecodeCursor(EncodeCursor(expiration, handle)) == DecodeCursor(cursor)
  {
    var (expiration, handle) := DecodeCursor(cursor).value;
    CursorRoundTrip(expiration, handle);
  }

  lemma SignedParses(n: nat)
    requires n <= MAX_U64
    ensures ParseU64("+" + Decimal(n)) == Some(n)
    ensures forall i :: 0 <= i < |"+" + Decimal(n)| ==> ("+" + Decimal(n))[i] != '.'
  {
    DecimalSpells(n);
    assert ("+" + Decimal(n))[1..] == Decimal(n);
  }

  /** A plus sign before the number is read over. */
  lemma PlusSignIsRead(expiration: nat, handle: string)
    requires expiration <= MAX_U64
    ensures DecodeCursor("v1." + ("+" + Decimal(expiration) + "." + handle))
         == DecodeCursor(EncodeCursor(expiration, handle))
  {
    var fields := "+" + Decimal(expiration) + "." + handle;
    SignedParses(expiration);
    FieldsReadBack("+" + Decimal(expiration), expiration, handle);
    CursorRoundTrip(expiration, handle);
    assert ("v1." + fields)[|VERSION|..] == fields;
  }

  lemma CursorExample()
    ensures EncodeCursor(120, "alice") == "v1.120.alice" && DecodeCursor("v1.120.alice") == Some((120, "alice"))
  {
    assert Decimal(1) == "1";
    assert Decimal(12) == "12";
    assert Decimal(120) == "120";
    CursorRoundTrip(120, "alice");
  }
}
