/** How the addon turns a request or response body into loggable text
    (`MitmProxyUIAddon.safe_decode`). */
module Content {
  import opened Wrappers
  import opened Utf8
  import Decimal

  /** Bodies longer than this many bytes are replaced by a size notice. */
  const MaxSize: nat := 50000

  /** The notice logged in place of an oversized body. */
  function TooLargeNotice(n: nat): string {
    "[Content too large: " + Decimal.NatToString(n) + " bytes]"
  }

  /** `safe_decode`: no text for an empty body, a size notice for an oversized one,
      otherwise the UTF-8 reading when the bytes are well-formed and the Latin-1
      reading when they are not. The Latin-1 reading cannot fail, so the model has
      no counterpart of the source's "[Binary content: N bytes]" fallback. */
  function SafeDecode(content: seq<Byte>): (r: Option<string>)
    ensures r.None? <==> |content| == 0
    ensures |content| > MaxSize ==> r == Some(TooLargeNotice(|content|))
    ensures 0 < |content| <= MaxSize && Decode(content).Some? ==> Encode(r.value) == content
    ensures 0 < |content| <= MaxSize && Decode(content).None? ==>
      |r.value| == |content| && forall i :: 0 <= i < |content| ==> r.value[i] as int == content[i]
  {
    if |content| == 0 then None
    else if |content| > MaxSize then Some(TooLargeNotice(|content|))
    else match Decode(content)
      case Some(text) => EncodeDecode(content); Some(text)
      case None => Some(Latin1(content))
  }

  /** A body that is the UTF-8 form of some non-empty text within the size limit is
      logged as exactly that text. */
  lemma SafeDecodeOfEncoded(text: string)
    requires 0 < |Encode(text)| <= MaxSize
    ensures SafeDecode(Encode(text)) == Some(text)
  {
    DecodeEncode(text);
  }

  /** The size notice names the body's length: reading its digits back gives it. */
  lemma TooLargeNoticeNamesLength(content: seq<Byte>)
    requires |content| > MaxSize
    ensures exists digits ::
      && SafeDecode(content) == Some("[Content too large: " + digits + " bytes]")
      && (forall i :: 0 <= i < |digits| ==> Decimal.IsDigit(digits[i]))
      && Decimal.DigitsValue(digits) == |content|
  {
    var digits := Decimal.NatToString(|content|);
    Decimal.NatToStringRoundTrip(|content|);
    assert SafeDecode(content) == Some("[Content too large: " + digits + " bytes]");
  }

  /** Two bodies within the size limit that are logged as the same text are the same
      bytes when both are well-formed UTF-8 or neither is. */
  lemma SafeDecodeInjective(a: seq<Byte>, b: seq<Byte>)
    requires 0 < |a| <= MaxSize && 0 < |b| <= MaxSize
    requires Decode(a).Some? == Decode(b).Some?
    requires SafeDecode(a) == SafeDecode(b)
    ensures a == b
  {
    if Decode(a).None? {
      Latin1Injective(a, b);
    }
  }
}
