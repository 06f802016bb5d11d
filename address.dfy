/** The 20-byte account address and the text parse applied to the extracted
    match (`parse::<Address>()`). The parse follows the fixed-width hash
    convention: an optional lower-case `0x` prefix is stripped, exactly 40
    hex digits of either case must remain, and no checksum casing is
    checked. */
module EthAddress {
  import opened Wrappers
  import opened Hex

  const AddressBytes: nat := 20

  type Address = b: seq<Byte> | |b| == AddressBytes witness seq(20, k => 0)

  /** The digits left after stripping one optional `0x` prefix; the strip is
      case-sensitive, so `0X` stays in place. */
  function Digits(text: string): string
  {
    if |text| >= 2 && text[..2] == "0x" then text[2..] else text
  }

  /** Canonical text form: `0x` followed by 40 lower-case hex digits. */
  function Format(a: Address): (t: string)
    ensures |t| == 2 + 2 * AddressBytes && t[..2] == "0x"
    ensures AllLowerHex(t[2..]) && AllHex(t[2..])
  {
    "0x" + Encode(a)
  }

  /** `Address::from_str`: succeeds exactly on 40 hex digits after the
      optional prefix, and the address it yields prints back as those digits
      in lower case. */
  function Parse(text: string): (r: Option<Address>)
    ensures r.Some? <==> |Digits(text)| == 2 * AddressBytes && AllHex(Digits(text))
    ensures r.Some? ==> Format(r.value) == "0x" + Lower(Digits(text))
  {
    var d := Digits(text);
    if |d| == 2 * AddressBytes && AllHex(d) then
      EncodeDecode(d);
      Some(Decode(d))
    else
      None
  }

  /** Formatting and parsing are inverse: every address survives the trip
      through its text form. */
  lemma ParseFormat(a: Address)
    ensures Parse(Format(a)) == Some(a)
  {
    var t := Format(a);
    assert Digits(t) == Encode(a);
    DecodeEncode(a);
  }

  /** Address equality is byte-wise: two texts whose digits agree up to
      letter case parse to the same address. */
  lemma ParseIgnoresCase(t: string, u: string)
    requires AllHex(Digits(t)) && AllHex(Digits(u))
    requires Lower(Digits(t)) == Lower(Digits(u))
    ensures Parse(t) == Parse(u)
  {
    if Parse(t).Some? {
      assert Parse(u).Some?;
      ParseFormat(Parse(t).value);
      ParseFormat(Parse(u).value);
    }
  }
}
