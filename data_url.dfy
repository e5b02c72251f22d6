/**
 * `encode_image_from_bytes`: the image bytes of an upload become a data URL
 * (RFC 2397) carrying the base 64 encoding of section 4 of RFC 4648, which is
 * the form in which the image is sent to the completion endpoint.
 */
module DataUrl {
  import opened Wrappers
  import PyStr
  import opened Base64

  /** The text in front of the payload: `data:<mime>;base64,`. */
  function Header(contentType: string): string
  {
    "data:" + contentType + ";base64,"
  }

  /**
   * The data URL of `imageBytes`: the header for `contentType`, then the
   * base 64 payload, nothing else. The payload is a well-formed encoding of
   * 4 * ceil(n / 3) characters, with its unused bits zero, that decodes to
   * exactly the image bytes; by `Base64.CanonicalEncodingUnique` it is the
   * only such string.
   */
  function EncodeImageFromBytes(imageBytes: seq<byte>, contentType: string): (url: string)
    ensures |Header(contentType)| == |contentType| + 13
    ensures |url| == |contentType| + 13 + 4 * ((|imageBytes| + 2) / 3)
    ensures url[..|contentType| + 13] == Header(contentType)
    ensures IsEncoded(url[|contentType| + 13..])
    ensures UnusedBitsZero(url[|contentType| + 13..])
    ensures Decode(url[|contentType| + 13..]) == Some(imageBytes)
  {
    var payload := Encode(imageBytes);
    EncodeIsEncoded(imageBytes);
    EncodeUnusedBitsZero(imageBytes);
    DecodeEncode(imageBytes);
    var url := Header(contentType) + payload;
    assert url[|contentType| + 13..] == payload;
    url
  }

  /**
   * When the content type holds no comma, the first comma of the data URL is
   * the one that ends the header: splitting there gives `data:<mime>;base64`
   * and the payload, which decodes to the image bytes.
   */
  lemma SplitAtFirstComma(imageBytes: seq<byte>, contentType: string)
    requires ',' !in contentType
    ensures var url := EncodeImageFromBytes(imageBytes, contentType);
      && ',' in url
      && PyStr.SplitOnce(url, ',') == ("data:" + contentType + ";base64", Encode(imageBytes))
      && Decode(PyStr.SplitOnce(url, ',').1) == Some(imageBytes)
  {
    var head := "data:" + contentType + ";base64";
    var payload := Encode(imageBytes);
    DecodeEncode(imageBytes);
    assert ',' !in head by {
      assert ',' !in "data:" && ',' !in ";base64";
    }
    assert Header(contentType) == head + [','];
    assert EncodeImageFromBytes(imageBytes, contentType) == head + [','] + payload;
    PyStr.SplitOnceJoined(head, ',', payload);
  }
}
