/** The hexadecimal decoding of signatures (hex.DecodeString, as verify.go uses it). */
module HexCodec {
  import opened CanonScalar
  import opened Wrappers

  function HexBytes(s: string): Option<seq<nat>> {
    if s == "" then Some([])
    else if |s| == 1 || HexValue(s[0]).None? || HexValue(s[1]).None? then None
    else
      var rest := HexBytes(s[2..]);
      if rest.None? then None else Some([16 * HexValue(s[0]).value + HexValue(s[1]).value] + rest.value)
  }

  lemma HexValueExactly(c: char, v: nat)
    ensures HexValue(c) == Some(v) <==> v < 16 && (c == "0123456789abcdef"[v] || c == "0123456789ABCDEF"[v])
  {
  }

  /** Exactly the texts with two hexadecimal digits a byte decode, each pair to its byte. */
  lemma {:induction false} HexBytesExactly(s: string)
    ensures HexBytes(s).Some? <==> |s| % 2 == 0 && forall i | 0 <= i < |s| :: HexValue(s[i]).Some?
    ensures HexBytes(s).Some? ==>
      var bs := HexBytes(s).value;
      2 * |bs| == |s| && forall i | 0 <= i < |bs| :: bs[i] == 16 * HexValue(s[2 * i]).value + HexValue(s[2 * i + 1]).value
  {
    if |s| > 1 {
      hide HexValue;
      var t := s[2..];
      HexBytesExactly(t);
      assert forall i | 0 <= i < |t| :: t[i] == s[i + 2];
      assert forall i | 2 <= i < |s| :: s[i] == t[i - 2];
      if HexBytes(s).Some? {
        forall i | 0 < i < |HexBytes(s).value|
          ensures HexBytes(s).value[i] == 16 * HexValue(s[2 * i]).value + HexValue(s[2 * i + 1]).value
        {
          assert t[2 * (i - 1)] == s[2 * i] && t[2 * (i - 1) + 1] == s[2 * i + 1];
        }
      }
    }
  }

  /** Bytes written with two digits each. */
  function HexText(bs: seq<nat>): string {
    if bs == [] then "" else Hex(bs[0], 2) + HexText(bs[1..])
  }

  lemma {:induction false} HexBytesUndoes(bs: seq<nat>)
    requires forall b | b in bs :: b < 256
    ensures HexBytes(HexText(bs)) == Some(bs)
  {
    if bs != [] {
      assert bs[0] in bs && forall b | b in bs[1..] :: b in bs;
      HexBytesUndoes(bs[1..]);
      TwoDigitsRead(bs[0]);
      hide Hex, HexValue, HexBytes;
      OneByte(Hex(bs[0], 2), HexText(bs[1..]), bs[0]);
      assert bs == [bs[0]] + bs[1..];
    }
  }

  lemma OneByte(two: string, rest: string, b: nat)
    requires |two| == 2 && HexValue(two[0]).Some? && HexValue(two[1]).Some? && HexBytes(rest).Some?
    requires 16 * HexValue(two[0]).value + HexValue(two[1]).value == b
    ensures HexBytes(two + rest) == Some([b] + HexBytes(rest).value)
  {
    hide HexValue;
    assert (two + rest)[2..] == rest;
  }

  lemma TwoDigitsRead(b: nat)
    requires b < 256
    ensures var t := Hex(b, 2);
      && |t| == 2 && HexValue(t[0]).Some? && HexValue(t[1]).Some?
      && 16 * HexValue(t[0]).value + HexValue(t[1]).value == b
  {
    assert Pow16(2) == 0x100 by { assert Pow16(1) == 16; }
    ReadHexUndoes(b, 2);
    var t := Hex(b, 2);
    hide Hex, HexValue;
    assert t[..1][0] == t[0] && t[..1][..0] == "";
    assert ReadHex(t[..1]) == if HexValue(t[0]).None? then None else Some(HexValue(t[0]).value);
  }
}
