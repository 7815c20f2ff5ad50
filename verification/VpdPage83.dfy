/** The SCSI Device Identification VPD page (page code 0x83, section 7.8.6
    of SPC-4): a four-byte page header, a big-endian page length, then a
    run of designation descriptors, each a four-byte header followed by an
    identifier of the length given in header byte 3. The page is a byte
    sequence here rather than a file. */
module VpdPage83 {

  import opened Wrappers
  import opened HexText

  const PageCode: bv8 := 0x83
  /** Designator type 3 is an NAA name. */
  const NaaDesignator: nat := 3

  datatype Page83Error =
    | FileTooShort
    | MismatchHeaderType(pageCode: bv8)
    | DataLengthError
    | InvalidDescriptorDataLength

  /** The text that is shown for an identifier. ASCII and UTF-8 identifiers
      keep their raw bytes: their decoding is not part of this model. */
  datatype IdString =
    | NaaId(text: string)
    | HexId(text: string)
    | TextId(codeSet: nat, raw: seq<bv8>)

  datatype Descriptor = Descriptor(
    offset: nat,
    protocolIdentifier: nat,
    codeSet: nat,
    piv: nat,
    association: nat,
    designatorType: nat,
    identifierLength: nat,
    identifier: seq<bv8>,
    idString: IdString)

  /** What the walk over the descriptors yields: every complete descriptor,
      and whether it stopped at an identifier running past the data. */
  datatype Walked = Walked(descriptors: seq<Descriptor>, truncated: bool)

  datatype Page83 = Page83(
    peripheralDeviceType: nat,
    peripheralQualifier: nat,
    pageLength: nat,
    descriptors: seq<Descriptor>,
    truncated: bool)

  function Min(a: nat, b: nat): nat { if a <= b then a else b }

  // ---------------------------------------------------------------- names

  /** Decimal digits of n, as Python's f-string writes an int. */
  function Decimal(n: nat): (s: string)
    ensures |s| >= 1
    ensures forall i :: 0 <= i < |s| ==> '0' <= s[i] <= '9'
  {
    if n < 10 then [('0' as nat + n) as char]
    else Decimal(n / 10) + [('0' as nat + n % 10) as char]
  }

  function ParseDecimal(s: string): nat
    requires forall i :: 0 <= i < |s| ==> '0' <= s[i] <= '9'
  {
    if s == [] then 0 else ParseDecimal(s[..|s| - 1]) * 10 + (s[|s| - 1] as nat - '0' as nat)
  }

  lemma {:induction false} DecimalRoundTrip(n: nat)
    ensures ParseDecimal(Decimal(n)) == n
  {
    if n >= 10 {
      DecimalRoundTrip(n / 10);
      var s := Decimal(n);
      assert s[..|s| - 1] == Decimal(n / 10);
    }
  }

  /** The name of an NAA format, "Unknown (t)" outside the four named ones. */
  function NaaFormatName(naaType: nat): (name: string)
    ensures |name| >= 9
  {
    if naaType == 2 then "IEEE Extended"
    else if naaType == 3 then "Locally Assigned"
    else if naaType == 5 then "IEEE Registered"
    else if naaType == 6 then "IEEE Registered Extended"
    else "Unknown (" + Decimal(naaType) + ")"
  }

  /** Only NAA types 2, 3, 5 and 6 have a format name; every other type is
      "Unknown (t)". */
  lemma NaaFormatNamed(naaType: nat)
    ensures (naaType !in {2, 3, 5, 6}) <==> NaaFormatName(naaType)[..8] == "Unknown "
    ensures naaType !in {2, 3, 5, 6} ==>
      NaaFormatName(naaType) == "Unknown (" + Decimal(naaType) + ")"
  {
    var name := NaaFormatName(naaType);
    if naaType in {2, 3, 5, 6} {
      assert name[0] != 'U';
    } else {
      ConcatSlices("Unknown ", "(" + Decimal(naaType), ")");
      assert name == "Unknown " + ("(" + Decimal(naaType)) + ")";
    }
  }

  // Bit fields of one byte, extracted with the masks and shifts of the
  // source; each contract says which arithmetic field the bits are.

  function HighNibble(b: bv8): (n: nat)
    ensures n == b as nat / 16
  {
    ((b & 0xF0) >> 4) as nat
  }

  function LowNibble(b: bv8): (n: nat)
    ensures n == b as nat % 16
  {
    (b & 0x0F) as nat
  }

  /** Bits 5-4. */
  function AssociationField(b: bv8): (n: nat)
    ensures n == (b as nat / 16) % 4
  {
    ((b & 0x30) >> 4) as nat
  }

  /** Bit 7. */
  function PivField(b: bv8): (n: nat)
    ensures n == b as nat / 128
  {
    ((b & 0x80) >> 7) as nat
  }

  /** Bits 4-0. */
  function PeripheralDeviceType(b: bv8): (n: nat)
    ensures n == b as nat % 32
  {
    (b & 0x1F) as nat
  }

  /** Bits 7-5. */
  function PeripheralQualifier(b: bv8): (n: nat)
    ensures n == b as nat / 32
  {
    ((b >> 5) & 0x07) as nat
  }

  /** A byte is the sum of its fields, both for the peripheral byte and for
      descriptor header bytes 0 and 1. */
  lemma ByteSplit(b: bv8)
    ensures b as nat == (b as nat / 128) * 128 + (b as nat / 64) % 2 * 64 + (b as nat / 16) % 4 * 16 + b as nat % 16
    ensures b as nat == (b as nat / 16) * 16 + b as nat % 16
    ensures b as nat == (b as nat / 32) * 32 + b as nat % 32
  {
    var n := b as nat;
    var h := n / 16;
    assert h == (h / 4) * 4 + h % 4;
    assert h / 4 == n / 64;
    var q := n / 64;
    assert q == (q / 2) * 2 + q % 2;
    assert q / 2 == n / 128;
  }

  /** An NAA designator as text: plain upper-case hex below eight bytes,
      otherwise "NAA t (format): HEX". */
  function DecodeNaaIdentifier(identifier: seq<bv8>): (s: string)
    ensures |identifier| < 8 ==> s == HexUpper(identifier)
    ensures |identifier| >= 8 ==> |s| > 2 * |identifier|
  {
    if |identifier| < 8 then HexUpper(identifier)
    else
      var naaType := HighNibble(identifier[0]);
      var naaFormat := NaaFormatName(naaType);
      var tail := " (" + naaFormat + "): " + HexUpper(identifier);
      "NAA " + Decimal(naaType) + tail
  }

  /** A nibble is written with one or two decimal digits, which read back
      as the nibble. */
  lemma NibbleDecimal(t: nat)
    requires t < 16
    ensures 1 <= |Decimal(t)| <= 2 && ParseDecimal(Decimal(t)) == t
  {
    DecimalRoundTrip(t);
    if t >= 10 {
      assert Decimal(t / 10) == [('0' as nat + t / 10) as char];
    }
  }

  /** The decoded text of a long identifier starts with "NAA " and the
      NAA type in decimal, which reads back as the high nibble of byte 0. */
  lemma NaaIdentifierReadsType(identifier: seq<bv8>)
    requires |identifier| >= 8
    ensures var s := DecodeNaaIdentifier(identifier);
      var d := Decimal(identifier[0] as nat / 16);
      1 <= |d| <= 2 && |s| >= 4 + |d| &&
      s[..4] == "NAA " && ParseDecimal(s[4..4 + |d|]) == identifier[0] as nat / 16
  {
    var t := identifier[0] as nat / 16;
    var d := Decimal(t);
    NibbleDecimal(t);
    var rest := " (" + NaaFormatName(t) + "): " + HexUpper(identifier);
    ConcatSlices("NAA ", d, rest);
  }

  /** The decoded text of a long identifier ends with the identifier in
      upper-case hex, which `HexUpperAt` reads back byte by byte; the
      format between them is named exactly for NAA types 2, 3, 5 and 6. */
  lemma NaaIdentifierReadsHex(identifier: seq<bv8>)
    requires |identifier| >= 8
    ensures var s := DecodeNaaIdentifier(identifier);
      |s| >= 2 * |identifier| && s[|s| - 2 * |identifier|..] == HexUpper(identifier)
  {
    var t := identifier[0] as nat / 16;
    var front := " (" + NaaFormatName(t) + "): ";
    var s := DecodeNaaIdentifier(identifier);
    assert s == ("NAA " + Decimal(t) + front) + HexUpper(identifier);
  }

  /** Between the type and the hex, the decoded text names the NAA format
      in parentheses: `" (" + name + "): "`. */
  lemma NaaIdentifierReadsFormat(identifier: seq<bv8>)
    requires |identifier| >= 8
    ensures var s := DecodeNaaIdentifier(identifier);
      var t := identifier[0] as nat / 16;
      var front := "NAA " + Decimal(t);
      var format := " (" + NaaFormatName(t) + "): ";
      |s| == |front| + |format| + 2 * |identifier| &&
      s[|front|..|front| + |format|] == format
  {
    var t := identifier[0] as nat / 16;
    var front := "NAA " + Decimal(t);
    var format := " (" + NaaFormatName(t) + "): ";
    var hex := HexUpper(identifier);
    NaaIdentifierParts(identifier, front, format, hex);
    ConcatSlices(front, format, hex);
  }

  /** Unfolding step: the decoded text of a long identifier in its three parts. A separate lemma keeps the proof of `NaaIdentifierReadsFormat` small. */
  lemma NaaIdentifierParts(identifier: seq<bv8>, front: string, format: string, hex: string)
    requires |identifier| >= 8
    requires front == "NAA " + Decimal(identifier[0] as nat / 16)
    requires format == " (" + NaaFormatName(identifier[0] as nat / 16) + "): "
    requires hex == HexUpper(identifier)
    ensures DecodeNaaIdentifier(identifier) == front + format + hex
  {
  }

  // ---------------------------------------------------------- descriptors

  /** The text of an identifier: NAA designators are decoded as NAA; among
      the others, code sets 2 (ASCII) and 3 (UTF-8) are text and every other
      code set is upper-case hex. */
  function IdentifierString(designatorType: nat, codeSet: nat, identifier: seq<bv8>): (r: IdString)
    ensures r.NaaId? <==> designatorType == NaaDesignator
    ensures r.TextId? <==> designatorType != NaaDesignator && codeSet in {2, 3}
    ensures r.TextId? ==> r.codeSet == codeSet && r.raw == identifier
    ensures r.NaaId? ==> r.text == DecodeNaaIdentifier(identifier)
    ensures r.HexId? ==> r.text == HexUpper(identifier)
  {
    if designatorType == NaaDesignator then NaaId(DecodeNaaIdentifier(identifier))
    else if codeSet == 1 then HexId(HexUpper(identifier))
    else if codeSet == 2 then TextId(2, identifier)
    else if codeSet == 3 then TextId(3, identifier)
    else HexId(HexUpper(identifier))
  }

  /** A hex identifier string gives back the identifier bytes. */
  lemma HexIdentifierReadsBack(designatorType: nat, codeSet: nat, identifier: seq<bv8>, i: nat)
    requires IdentifierString(designatorType, codeSet, identifier).HexId?
    requires i < |identifier|
    ensures var r := IdentifierString(designatorType, codeSet, identifier);
      ParseHex(r.text[2 * i..2 * i + 2]) == identifier[i] as nat
  {
    HexUpperAt(identifier, i);
  }

  /** The descriptor whose header starts at `offset` and whose identifier
      fits in the data. Header byte 0 holds the protocol identifier (bits
      7-4) and the code set (bits 3-0); byte 1 holds PIV (bit 7), a reserved
      bit, the association (bits 5-4) and the designator type (bits 3-0);
      byte 3 is the identifier length. */
  function DecodeDescriptor(data: seq<bv8>, offset: nat): (d: Descriptor)
    requires offset + 4 <= |data|
    requires offset + 4 + data[offset + 3] as nat <= |data|
    ensures d.offset == offset
    ensures d.identifierLength == data[offset + 3] as nat
    ensures d.identifier == data[offset + 4..offset + 4 + d.identifierLength]
    ensures d.protocolIdentifier < 16 && d.codeSet < 16
    ensures d.piv < 2 && d.association < 4 && d.designatorType < 16
    ensures d.idString == IdentifierString(d.designatorType, d.codeSet, d.identifier)
  {
    var b0, b1 := data[offset], data[offset + 1];
    var length := data[offset + 3] as nat;
    var identifier := data[offset + 4..offset + 4 + length];
    Descriptor(offset, HighNibble(b0), LowNibble(b0), PivField(b1), AssociationField(b1), LowNibble(b1),
               length, identifier, IdentifierString(LowNibble(b1), LowNibble(b0), identifier))
  }

  /** The decoded fields partition the two header bytes as SPC-4 lays them
      out: putting them back together gives bytes 0 and 1. */
  lemma HeaderFieldsPartition(data: seq<bv8>, offset: nat)
    requires offset + 4 <= |data|
    requires offset + 4 + data[offset + 3] as nat <= |data|
    ensures var d := DecodeDescriptor(data, offset);
      d.protocolIdentifier * 16 + d.codeSet == data[offset] as nat &&
      d.piv * 128 + (data[offset + 1] as nat / 64) % 2 * 64 + d.association * 16 + d.designatorType
        == data[offset + 1] as nat
  {
    ByteSplit(data[offset]);
    ByteSplit(data[offset + 1]);
  }

  /** PIV as the source reads it: bit 4 of header byte 0. */
  function PivAsWritten(b0: bv8): (piv: nat)
    ensures piv == (b0 as nat / 16) % 2
  {
    ((b0 & 0x10) >> 4) as nat
  }

  /** Bit 4 of byte 0 is the low bit of the protocol identifier, so the
      PIV read that way follows the protocol and not byte 1's PIV bit. An
      iSCSI (protocol identifier 5) NAA descriptor with PIV clear shows it. */
  lemma PivAsWrittenReadsProtocol()
    ensures var data := [0x51 as bv8, 0x03, 0x00, 0x00];
      PivAsWritten(data[0]) == 1 && DecodeDescriptor(data, 0).piv == 0 &&
      DecodeDescriptor(data, 0).protocolIdentifier == 5
  {
  }

  // ------------------------------------------------------------------ walk

  /** The descriptor walk from `offset` to the end of the data. */
  function Walk(data: seq<bv8>, offset: nat): (w: Result<Walked, Page83Error>)
    requires offset <= |data|
    ensures w.Failure? ==> w.error == InvalidDescriptorDataLength
    decreases |data| - offset
  {
    if offset == |data| then Success(Walked([], false))
    else if offset + 4 > |data| then Failure(InvalidDescriptorDataLength)
    else
      var identifierEnd := offset + 4 + data[offset + 3] as nat;
      if identifierEnd > |data| then Success(Walked([], true))
      else Prepend([DecodeDescriptor(data, offset)], Walk(data, identifierEnd))
  }

  function Prepend(ds: seq<Descriptor>, w: Result<Walked, Page83Error>): (r: Result<Walked, Page83Error>)
    ensures r.Failure? <==> w.Failure?
    ensures r.Failure? ==> r.error == w.error
    ensures r.Success? ==> r.value == Walked(ds + w.value.descriptors, w.value.truncated)
  {
    match w
    case Failure(e) => Failure(e)
    case Success(rest) => Success(Walked(ds + rest.descriptors, rest.truncated))
  }

  lemma PrependNothing(w: Result<Walked, Page83Error>)
    ensures Prepend([], w) == w
  {
    if w.Success? {
      assert [] + w.value.descriptors == w.value.descriptors;
    }
  }

  lemma PrependTwice(a: seq<Descriptor>, b: seq<Descriptor>, w: Result<Walked, Page83Error>)
    ensures Prepend(a, Prepend(b, w)) == Prepend(a + b, w)
  {
    if w.Success? {
      assert a + (b + w.value.descriptors) == (a + b) + w.value.descriptors;
    }
  }

  /** The header of a page of at least four bytes. */
  function PageLength(file: seq<bv8>): (n: nat)
    requires |file| >= 4
    ensures n < 0x1_0000 && n / 256 == file[2] as nat && n % 256 == file[3] as nat
  {
    file[2] as nat * 256 + file[3] as nat
  }

  /** The page as `parse_it` reads it. */
  function ParsePage(file: seq<bv8>): (r: Result<Page83, Page83Error>)
    ensures |file| < 4 <==> r == Failure(FileTooShort)
    ensures |file| >= 4 && file[1] != PageCode ==> r == Failure(MismatchHeaderType(file[1]))
    ensures |file| >= 4 && file[1] == PageCode ==>
      (r == Failure(DataLengthError) <==> |file| < 4 + PageLength(file))
    ensures r.Success? ==>
      |file| >= 4 && file[1] == PageCode && |file| >= 4 + PageLength(file) &&
      r.value.pageLength == PageLength(file)
  {
    if |file| < 4 then Failure(FileTooShort)
    else if file[1] != PageCode then Failure(MismatchHeaderType(file[1]))
    else
      var pageLength := PageLength(file);
      var data := file[4..Min(|file|, 4 + pageLength)];
      if |data| < pageLength then Failure(DataLengthError)
      else
        match Walk(data, 0)
        case Failure(e) => Failure(e)
        case Success(w) =>
          Success(Page83(PeripheralDeviceType(file[0]), PeripheralQualifier(file[0]), pageLength,
                         w.descriptors, w.truncated))
  }

  /** What `ParsePage` gives once the header checks have passed. */
  lemma ParsePageBody(file: seq<bv8>)
    requires |file| >= 4 && |file| >= 4 + PageLength(file) && file[1] == PageCode
    ensures var data := file[4..4 + PageLength(file)];
      ParsePage(file) == match Walk(data, 0)
        case Failure(e) => Failure(e)
        case Success(w) =>
          Success(Page83(PeripheralDeviceType(file[0]), PeripheralQualifier(file[0]), PageLength(file),
                         w.descriptors, w.truncated))
  {
    assert Min(|file|, 4 + PageLength(file)) == 4 + PageLength(file);
  }

  /** The peripheral byte splits into the device type (bits 4-0) and the
      qualifier (bits 7-5). */
  lemma ParsePageHeader(file: seq<bv8>)
    requires ParsePage(file).Success?
    ensures var p := ParsePage(file).value;
      p.peripheralDeviceType < 32 && p.peripheralQualifier < 8 &&
      p.peripheralDeviceType + 32 * p.peripheralQualifier == file[0] as nat
  {
    ParsePageBody(file);
    ByteSplit(file[0]);
  }

  /** `Pg83.parse_it`: the header checks, then the descriptor walk. */
  method ParseIt(file: seq<bv8>) returns (r: Result<Page83, Page83Error>)
    ensures r == ParsePage(file)
  {
    if |file| < 4 {
      return Failure(FileTooShort);
    }
    if file[1] != PageCode {
      return Failure(MismatchHeaderType(file[1]));
    }
    var peripheralDeviceType := PeripheralDeviceType(file[0]);
    var peripheralQualifier := PeripheralQualifier(file[0]);
    var pageLength := PageLength(file);
    var data := file[4..Min(|file|, 4 + pageLength)];
    if |data| < pageLength {
      return Failure(DataLengthError);
    }
    ParsePageBody(file);
    var walked := WalkDescriptors(data);
    match walked {
      case Failure(e) =>
        r := Failure(e);
      case Success(w) =>
        r := Success(Page83(peripheralDeviceType, peripheralQualifier, pageLength, w.descriptors, w.truncated));
    }
  }

  /** The loop of `Pg83.parse_it` over the page body: it advances the offset
      past each descriptor's identifier, fails when fewer than four bytes
      are left for a header, and stops early at an identifier that runs past
      the end. */
  method WalkDescriptors(data: seq<bv8>) returns (r: Result<Walked, Page83Error>)
    ensures r == Walk(data, 0)
  {
    var lenData := |data|;
    var descriptors: seq<Descriptor> := [];
    var truncated := false;
    var offset := 0;
    PrependNothing(Walk(data, 0));
    while offset < lenData
      invariant offset <= lenData
      invariant Walk(data, 0) == Prepend(descriptors, Walk(data, offset))
      invariant !truncated
      decreases lenData - offset
    {
      var end := offset + 4;
      if end > lenData {
        assert Walk(data, offset) == Failure(InvalidDescriptorDataLength);
        return Failure(InvalidDescriptorDataLength);
      }
      var descriptorHeader := data[offset..end];
      var codeSet := LowNibble(descriptorHeader[0]);
      // PIV is bit 7 of byte 1, where SPC-4 places it (not bit 4 of byte 0).
      var piv := PivField(descriptorHeader[1]);
      var protocolIdentifier := HighNibble(descriptorHeader[0]);
      var association := AssociationField(descriptorHeader[1]);
      var identifierType := LowNibble(descriptorHeader[1]);
      var identifierLength := descriptorHeader[3] as nat;
      var identifierOffset := offset + 4;
      var identifierEnd := identifierOffset + identifierLength;
      if identifierEnd > lenData {
        truncated := true;
        break;
      }
      var identifier := data[identifierOffset..identifierEnd];
      var idString := IdentifierString(identifierType, codeSet, identifier);
      var d := Descriptor(offset, protocolIdentifier, codeSet, piv, association, identifierType,
                          identifierLength, identifier, idString);
      assert d == DecodeDescriptor(data, offset);
      PrependTwice(descriptors, [d], Walk(data, identifierEnd));
      descriptors := descriptors + [d];
      offset := identifierEnd;
    }
    if !truncated {
      assert Walk(data, offset) == Success(Walked([], false));
    }
    assert descriptors + [] == descriptors;
    r := Success(Walked(descriptors, truncated));
  }

  // ------------------------------------------------------------ properties

  /** Where the descriptors of a successful walk from `start` end. */
  function EndOf(ds: seq<Descriptor>, start: nat): nat
    decreases |ds|
  {
    if ds == [] then start else EndOf(ds[1..], ds[0].offset + 4 + ds[0].identifierLength)
  }

  /** The descriptors lie back to back from `start`, each one decoded from
      the bytes at its own offset. */
  predicate Tiling(data: seq<bv8>, ds: seq<Descriptor>, start: nat)
    decreases |ds|
  {
    if ds == [] then true
    else
      start + 4 <= |data| && start + 4 + data[start + 3] as nat <= |data| &&
      ds[0] == DecodeDescriptor(data, start) &&
      Tiling(data, ds[1..], start + 4 + data[start + 3] as nat)
  }

  /** A successful walk lays its descriptors back to back from the start
      offset and ends inside the data. Without truncation they cover the
      data exactly. */
  lemma {:induction false} WalkTiles(data: seq<bv8>, offset: nat)
    requires offset <= |data| && Walk(data, offset).Success?
    ensures var w := Walk(data, offset).value;
      var stop := EndOf(w.descriptors, offset);
      Tiling(data, w.descriptors, offset) && offset <= stop <= |data| &&
      (!w.truncated ==> stop == |data|)
    decreases |data| - offset
  {
    if offset < |data| {
      var next := offset + 4 + data[offset + 3] as nat;
      if next <= |data| {
        var d := DecodeDescriptor(data, offset);
        assert Walk(data, offset) == Prepend([d], Walk(data, next));
        WalkTiles(data, next);
        var rest := Walk(data, next).value;
        var ds := [d] + rest.descriptors;
        assert ds[0] == d && ds[1..] == rest.descriptors;
        assert EndOf(ds, offset) == EndOf(rest.descriptors, next);
      }
    }
  }

  /** A walk stops early only at a descriptor whose header fits but whose
      identifier runs past the end of the data. */
  lemma {:induction false} WalkTruncation(data: seq<bv8>, offset: nat)
    requires offset <= |data| && Walk(data, offset).Success? && Walk(data, offset).value.truncated
    ensures IdentifierOverruns(data, EndOf(Walk(data, offset).value.descriptors, offset))
    decreases |data| - offset
  {
    WalkTruncatedHeader(data, offset);
    var next := offset + 4 + data[offset + 3] as nat;
    if next <= |data| {
      WalkEndStep(data, offset);
      WalkTruncation(data, next);
    }
  }

  /** A truncated walk has a descriptor header at its start; when that
      descriptor's identifier overruns, the walk stops right there. */
  lemma WalkTruncatedHeader(data: seq<bv8>, offset: nat)
    requires offset <= |data| && Walk(data, offset).Success? && Walk(data, offset).value.truncated
    ensures offset + 4 <= |data|
    ensures IdentifierOverruns(data, offset) ==> Walk(data, offset).value.descriptors == []
  {
  }

  /** At `stop` a descriptor header fits, but the identifier it announces
      runs past the end of the data. */
  predicate IdentifierOverruns(data: seq<bv8>, stop: nat) {
    stop + 4 <= |data| && stop + 4 + data[stop + 3] as nat > |data|
  }

  /** One step of the walk: past a descriptor that fits, the walk succeeds
      exactly when the rest does, with the same truncation and end. */
  lemma WalkEndStep(data: seq<bv8>, offset: nat)
    requires offset + 4 <= |data| && offset + 4 + data[offset + 3] as nat <= |data|
    ensures var next := offset + 4 + data[offset + 3] as nat;
      (Walk(data, offset).Success? <==> Walk(data, next).Success?) &&
      (Walk(data, next).Success? ==>
         Walk(data, offset).value.truncated == Walk(data, next).value.truncated &&
         EndOf(Walk(data, offset).value.descriptors, offset) == EndOf(Walk(data, next).value.descriptors, next))
  {
    var next := offset + 4 + data[offset + 3] as nat;
    var d := DecodeDescriptor(data, offset);
    assert d.offset + 4 + d.identifierLength == next;
    assert Walk(data, offset) == Prepend([d], Walk(data, next));
    if Walk(data, next).Success? {
      EndOfPrepend(d, Walk(data, next).value.descriptors, offset);
    }
  }

  /** A descriptor put in front moves the end past its own identifier. */
  lemma EndOfPrepend(d: Descriptor, ds: seq<Descriptor>, start: nat)
    ensures EndOf([d] + ds, start) == EndOf(ds, d.offset + 4 + d.identifierLength)
  {
    assert ([d] + ds)[1..] == ds;
  }

  /** Conversely, descriptors laid back to back over the whole data are
      exactly what the walk finds. */
  lemma {:induction false} TilingIsWalk(data: seq<bv8>, ds: seq<Descriptor>, offset: nat)
    requires offset <= |data| && Tiling(data, ds, offset) && EndOf(ds, offset) == |data|
    ensures Walk(data, offset) == Success(Walked(ds, false))
    decreases |ds|
  {
    if ds != [] {
      var next := offset + 4 + data[offset + 3] as nat;
      assert ds[0].offset + 4 + ds[0].identifierLength == next;
      TilingIsWalk(data, ds[1..], next);
      assert [ds[0]] + ds[1..] == ds;
    }
  }

  /** Every offset the walk visits lies past the previous one: each
      descriptor starts where the last one's identifier ended. */
  lemma {:induction false} TilingAdvances(data: seq<bv8>, ds: seq<Descriptor>, start: nat, i: nat)
    requires Tiling(data, ds, start) && i + 1 < |ds|
    ensures ds[i + 1].offset == ds[i].offset + 4 + ds[i].identifierLength > ds[i].offset
    decreases |ds|
  {
    if i > 0 {
      TilingAdvances(data, ds[1..], start + 4 + data[start + 3] as nat, i - 1);
    } else {
      assert Tiling(data, ds[1..], start + 4 + data[start + 3] as nat);
    }
  }

  /** A parsed page's descriptors tile its body, the page-length bytes
      after the header. */
  lemma ParsePageTiles(file: seq<bv8>)
    requires ParsePage(file).Success?
    ensures var p := ParsePage(file).value;
      var body := file[4..4 + p.pageLength];
      Tiling(body, p.descriptors, 0) && EndOf(p.descriptors, 0) <= p.pageLength &&
      (!p.truncated ==> EndOf(p.descriptors, 0) == p.pageLength)
  {
    ParsePageBody(file);
    WalkTiles(file[4..4 + PageLength(file)], 0);
  }

  /** The walk fails only where fewer than four bytes are left for a
      descriptor header: complete descriptors lie back to back from the
      start and end one to three bytes short of the data's end. */
  lemma {:induction false} WalkFailsOnShortHeader(data: seq<bv8>, offset: nat)
    requires offset <= |data| && Walk(data, offset).Failure?
    ensures exists ds :: Tiling(data, ds, offset) && EndOf(ds, offset) < |data| < EndOf(ds, offset) + 4
    decreases |data| - offset
  {
    if offset + 4 > |data| {
      assert Tiling(data, [], offset) && EndOf([], offset) == offset;
    } else {
      var next := offset + 4 + data[offset + 3] as nat;
      var d := DecodeDescriptor(data, offset);
      assert Walk(data, offset) == Prepend([d], Walk(data, next));
      WalkFailsOnShortHeader(data, next);
      var rest :| Tiling(data, rest, next) && EndOf(rest, next) < |data| < EndOf(rest, next) + 4;
      var ds := [d] + rest;
      assert ds[0] == d && ds[1..] == rest;
      assert EndOf(ds, offset) == EndOf(rest, next);
      assert Tiling(data, ds, offset);
    }
  }

  /** Conversely, descriptors laid back to back that leave one to three
      bytes at the end make the walk fail there. */
  lemma {:induction false} ShortHeaderFailsWalk(data: seq<bv8>, ds: seq<Descriptor>, offset: nat)
    requires offset <= |data| && Tiling(data, ds, offset)
    requires EndOf(ds, offset) < |data| < EndOf(ds, offset) + 4
    ensures Walk(data, offset) == Failure(InvalidDescriptorDataLength)
    decreases |ds|
  {
    if ds != [] {
      var next := offset + 4 + data[offset + 3] as nat;
      assert EndOf(ds, offset) == EndOf(ds[1..], next);
      ShortHeaderFailsWalk(data, ds[1..], next);
      assert Walk(data, offset) == Prepend([DecodeDescriptor(data, offset)], Walk(data, next));
    }
  }
}
