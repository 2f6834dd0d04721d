/** The licence request file: header, checksum and payload, separated by dots. */
module LicenceRequest {
  import opened Wrappers
  import opened Texts
  import opened Base64Url

  /** JSON and SHA-256, of which only what is stated below is assumed. */
  datatype Library<!Body> = Library(dumps: Body -> seq<Byte>, loads: seq<Byte> -> Option<Body>,
      sha256: seq<Byte> -> string)

  predicate IsHex(c: char) {
    '0' <= c <= '9' || 'a' <= c <= 'f'
  }

  /** JSON reads back what it wrote; a digest is at least sixteen lower-case hex digits. */
  ghost predicate Faithful<Body(!new)>(lib: Library<Body>) {
    && (forall b :: lib.loads(lib.dumps(b)) == Some(b))
    && (forall p :: |lib.sha256(p)| >= 16 && forall i :: 0 <= i < |lib.sha256(p)| ==> IsHex(lib.sha256(p)[i]))
  }

  const HEADER := "NETOPSGUARD-REQUEST-1"

  datatype Error = NotARequest | BadEncoding | Corrupt | BadJson

  function Checksum<Body>(lib: Library<Body>, payload: seq<Byte>): string {
    var digest := lib.sha256(payload);
    if |digest| <= 16 then digest else digest[..16]
  }

  function Framed(checksum: string, encoded: string): string {
    HEADER + "." + checksum + "." + encoded
  }

  function Encode<Body>(lib: Library<Body>, body: Body): string {
    var payload := lib.dumps(body);
    Framed(Checksum(lib, payload), Unpadded(payload))
  }

  predicate IsAscii(s: string) {
    forall i :: 0 <= i < |s| ==> s[i] < '\U{80}'
  }

  function Decode<Body>(lib: Library<Body>, text: string): Result<Body, Error> {
    var parts := Split(Strip(text), '.');
    if |parts| != 3 || parts[0] != HEADER then Err(NotARequest)
    else if !IsAscii(parts[2]) then Err(BadEncoding)
    else match Decoded(Repad(parts[2]))
      case None => Err(BadEncoding)
      case Some(payload) =>
        if Checksum(lib, payload) != parts[1] then Err(Corrupt)
        else match lib.loads(payload)
          case None => Err(BadJson)
          case Some(body) => Ok(body)
  }

  /** The file the web page offers for download. */
  function WebRequest<Body>(lib: Library<Body>, body: Body): string {
    var payload := lib.dumps(body);
    HEADER + "." + Checksum(lib, payload) + "." + Unpadded(payload) + "\n"
  }

  lemma HeaderPlain()
    ensures '.' !in HEADER && !IsSpace(HEADER[0])
  {
  }

  lemma AlphabetPlain(s: string)
    requires forall i :: 0 <= i < |s| ==> InAlphabet(s[i])
    ensures '.' !in s && IsAscii(s) && forall i :: 0 <= i < |s| ==> !IsSpace(s[i])
  {
  }

  lemma FramedTrimmed(checksum: string, encoded: string)
    requires encoded != "" ==> !IsSpace(encoded[|encoded| - 1])
    ensures Trimmed(Framed(checksum, encoded))
  {
  }

  lemma FramedSplits(checksum: string, encoded: string)
    requires '.' !in checksum && '.' !in encoded
    ensures Split(Framed(checksum, encoded), '.') == [HEADER, checksum, encoded]
  {
    HeaderPlain();
    var parts := [HEADER, checksum, encoded];
    SplitJoin(parts, '.');
    assert parts[1..] == [checksum, encoded] && parts[1..][1..] == [encoded];
    assert Join(parts[1..], '.') == checksum + "." + encoded;
    assert Join(parts, '.') == Framed(checksum, encoded);
  }

  /** The first sixteen characters of the digest. */
  lemma ChecksumExact<Body>(lib: Library<Body>, payload: seq<Byte>)
    ensures |Checksum(lib, payload)| <= 16 && Checksum(lib, payload) <= lib.sha256(payload)
    ensures |lib.sha256(payload)| >= 16 ==> Checksum(lib, payload) == lib.sha256(payload)[..16]
  {
  }

  /** A file written has three fields: the header, sixteen digits of the payload's digest, and the payload. */
  lemma WrittenFields<Body(!new)>(lib: Library<Body>, body: Body)
    requires Faithful(lib)
    ensures var payload := lib.dumps(body);
            && Split(Encode(lib, body), '.') == ["NETOPSGUARD-REQUEST-1", lib.sha256(payload)[..16], Unpadded(payload)]
            && WebRequest(lib, body) == Encode(lib, body) + "\n"
  {
    var payload := lib.dumps(body);
    assert forall i :: 0 <= i < |Checksum(lib, payload)| ==> IsHex(Checksum(lib, payload)[i]);
    ChecksumExact(lib, payload);
    RepadRestores(payload);
    AlphabetPlain(Unpadded(payload));
    FramedSplits(Checksum(lib, payload), Unpadded(payload));
  }

  /** Three fields, the first of them the header, however spaced. */
  predicate IsRequest(text: string) {
    var parts := Split(Strip(text), '.');
    |parts| == 3 && parts[0] == "NETOPSGUARD-REQUEST-1"
  }

  /** What the third field decodes to; the decoder takes ASCII only. */
  function Payload(text: string): Option<seq<Byte>>
    requires IsRequest(text)
  {
    var third := Split(Strip(text), '.')[2];
    if forall i :: 0 <= i < |third| ==> third[i] as int < 128 then Decoded(Repad(third)) else None
  }

  /** Every text: it is read exactly if it has three fields, the first is the header, the third decodes, the second is
      sixteen digits of the digest of what it decodes to, and that is JSON; otherwise the error says which of these
      failed first. */
  lemma DecodeExact<Body(!new)>(lib: Library<Body>, text: string)
    requires Faithful(lib)
    ensures !IsRequest(text) ==> Decode(lib, text) == Err(NotARequest)
    ensures IsRequest(text) && Payload(text) == None ==> Decode(lib, text) == Err(BadEncoding)
    ensures forall payload :: IsRequest(text) && Payload(text) == Some(payload) ==>
              && (lib.sha256(payload)[..16] != Split(Strip(text), '.')[1] ==> Decode(lib, text) == Err(Corrupt))
              && (lib.sha256(payload)[..16] == Split(Strip(text), '.')[1] && lib.loads(payload) == None ==>
                    Decode(lib, text) == Err(BadJson))
              && (lib.sha256(payload)[..16] == Split(Strip(text), '.')[1] && lib.loads(payload).Some? ==>
                    Decode(lib, text) == Ok(lib.loads(payload).value))
  {
    if IsRequest(text) && Payload(text).Some? {
      ChecksumExact(lib, Payload(text).value);
    }
  }

  /** A framed payload is accepted, whatever space surrounds it, exactly when the checksum field is the first sixteen
      characters of its digest and it is JSON; and then it decodes to that JSON. */
  lemma AcceptedExactly<Body>(lib: Library<Body>, before: string, checksum: string, payload: seq<Byte>, after: string)
    requires AllSpace(before) && AllSpace(after) && '.' !in checksum
    ensures Decode(lib, before + Framed(checksum, Unpadded(payload)) + after)
            == var digest := lib.sha256(payload);
               if checksum != (if |digest| <= 16 then digest else digest[..16]) then Err(Corrupt)
               else match lib.loads(payload)
                    case None => Err(BadJson)
                    case Some(b) => Ok(b)
  {
    var encoded := Unpadded(payload);
    RepadRestores(payload);
    DecodePadded(payload);
    AlphabetPlain(encoded);
    FramedTrimmed(checksum, encoded);
    StripPadding(before, Framed(checksum, encoded), after);
    FramedSplits(checksum, encoded);
  }

  /** Whatever request is written is read back, with any space around it. */
  lemma RequestRoundTrip<Body(!new)>(lib: Library<Body>, body: Body, before: string, after: string)
    requires Faithful(lib) && AllSpace(before) && AllSpace(after)
    ensures Decode(lib, before + Encode(lib, body) + after) == Ok(body)
  {
    var payload := lib.dumps(body);
    assert forall i :: 0 <= i < |Checksum(lib, payload)| ==> IsHex(Checksum(lib, payload)[i]);
    AcceptedExactly(lib, before, Checksum(lib, payload), payload, after);
  }

  /** The web page's file is accepted by the same decoder. */
  lemma WebRequestAccepted<Body(!new)>(lib: Library<Body>, body: Body)
    requires Faithful(lib)
    ensures Decode(lib, WebRequest(lib, body)) == Ok(body)
  {
    RequestRoundTrip(lib, body, "", "\n");
    assert WebRequest(lib, body) == "" + Encode(lib, body) + "\n";
  }
}
