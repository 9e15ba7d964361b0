/** calc_ip_checksum and prep_ip_hdr of virgoos/src/network/ip.c and calc_udp_checksum of virgoos/src/network/udp.c. */
module IpHeaders {
  import opened Common
  import opened InternetChecksum

  const HEADER: nat := 20
  const PSEUDO_HEADER: nat := 12

  lemma FoldMore(ws: seq<Word>, w: Word)
    ensures Fold(ws + [w]) == AddFold(Fold(ws), w)
  {
    assert (ws + [w])[..|ws|] == ws;
  }

  /** The loop shared by both checksum functions: adds the words of s, and an odd last byte, to a checksum. */
  method AddWords(checksum: Word, s: seq<Byte>, ghost before: seq<Word>) returns (c: Word)
    requires checksum == Fold(before)
    ensures c == Fold(before + CodeWords(s))
  {
    hide Fold, AddFold, LastWord, Words, WordAt;
    c := checksum;
    ghost var ws := Words(s);
    var i := 0;
    assert before + ws[..0] == before;
    while i < |s| / 2
      invariant i <= |s| / 2 && c == Fold(before + ws[..i])
    {
      FoldNext(before, s, i);
      c := AddFold(c, WordAt(s, i));
      i := i + 1;
    }
    assert ws[..i] == ws;
    if |s| % 2 == 1 {
      FoldMore(before + ws, LastWord(s[2 * i]));
      assert before + CodeWords(s) == before + ws + [LastWord(s[2 * i])];
      c := AddFold(c, LastWord(s[2 * i]));
    }
  }

  lemma FoldNext(before: seq<Word>, s: seq<Byte>, i: nat)
    requires i < |s| / 2
    ensures Fold(before + Words(s)[..i + 1]) == AddFold(Fold(before + Words(s)[..i]), WordAt(s, i))
  {
    hide Fold, AddFold;
    FoldMore(before + Words(s)[..i], WordAt(s, i));
    assert before + Words(s)[..i + 1] == before + Words(s)[..i] + [WordAt(s, i)];
  }

  /** calc_ip_checksum. */
  method CalcIpChecksum(pdata: seq<Byte>) returns (r: Word)
    ensures r == CodeChecksum(pdata)
    ensures |pdata| % 2 == 0 ==> r == RfcChecksum(pdata)
  {
    hide Fold, CodeWords, RfcChecksum;
    NothingSummed();
    var c := AddWords(0, pdata, []);
    assert [] + CodeWords(pdata) == CodeWords(pdata);
    ChecksumExact(pdata);
    r := Complement(c);
  }

  /** calc_udp_checksum: the checksum of the pseudo header followed by the packet. */
  method CalcUdpChecksum(pseudo: seq<Byte>, pdata: seq<Byte>) returns (r: Word)
    requires |pseudo| == PSEUDO_HEADER
    ensures r == CodeChecksum(pseudo + pdata)
    ensures r == RfcChecksum(pseudo + pdata) <==> |pdata| % 2 == 0 || pdata[|pdata| - 1] < 0x80
  {
    hide Fold, CodeWords, RfcChecksum;
    NothingSummed();
    var c := AddWords(0, pseudo, []);
    assert [] + CodeWords(pseudo) == CodeWords(pseudo);
    c := AddWords(c, pdata, CodeWords(pseudo));
    CodeWordsConcat(pseudo, pdata);
    ChecksumExact(pseudo + pdata);
    r := Complement(c);
  }

  function Hi(w: Word): Byte {
    w / 256
  }

  function Lo(w: Word): Byte {
    w % 256
  }

  /** An address, or a null pointer, which leaves what the header has. */
  datatype Address = Null | Address(bytes: seq<Byte>)

  /** The fields that prep_ip_hdr fills in. */
  predicate Filled(h: seq<Byte>, length: Word, id: Word, tos: Byte, ttl: Byte, protocol: Byte)
    requires |h| == HEADER
  {
    && h[0] == 0x45 && h[1] == tos
    && h[2] == Hi(length) && h[3] == Lo(length)
    && h[4] == Hi(id) && h[5] == Lo(id)
    && h[6] == 0 && h[7] == 0
    && h[8] == ttl && h[9] == protocol
  }

  /** Length and id lie in the header with the high byte first. */
  lemma FieldsSay(h: seq<Byte>, length: Word, id: Word, tos: Byte, ttl: Byte, protocol: Byte)
    requires |h| == HEADER
    ensures Filled(h, length, id, tos, ttl, protocol) <==>
            && h[0] == 0x45 && h[1] == tos && 256 * h[2] as int + h[3] as int == length as int
            && 256 * h[4] as int + h[5] as int == id as int
            && h[6] == 0 && h[7] == 0 && h[8] == ttl && h[9] == protocol
  {
  }

  /** A header with the checksum of itself in its place checks out. */
  lemma HeaderChecksOut(h: seq<Byte>, zeroed: seq<Byte>)
    requires |h| == HEADER && zeroed == h[10 := 0][11 := 0]
    requires h[10] == Hi(CodeChecksum(zeroed)) && h[11] == Lo(CodeChecksum(zeroed))
    ensures CodeChecksum(h) == 0
  {
    hide Fold;
    var ws := Words(h);
    assert Words(zeroed) == ws[5 := 0];
    assert WordAt(h, 5) == CodeChecksum(zeroed);
    CheckedIsZero(ws, 5);
  }

  class IpLayer {
    /** ip_id, ip_tos and ip_ttl */
    var id: Word
    var tos: Byte
    var ttl: Byte

    /** prep_ip_hdr. */
    method PrepIpHdr(h: array<Byte>, length: Word, protocol: Byte, src: Address, dest: Address)
      requires h.Length == HEADER
      requires (src.Address? ==> |src.bytes| == 4) && (dest.Address? ==> |dest.bytes| == 4)
      modifies this`id, h
      ensures Filled(h[..], length, old(id), tos, ttl, protocol)
      ensures id == if old(id) == 0xFFFF then 0 else old(id) + 1
      ensures h[12..16] == if src.Address? then src.bytes else old(h[12..16])
      ensures h[16..20] == if dest.Address? then dest.bytes else old(h[16..20])
      ensures CodeChecksum(h[..]) == 0
    {
      hide CodeChecksum, Hi, Lo, Filled;
      ghost var old12, old16 := h[12..16], h[16..20];
      FillFields(h, length, protocol);
      ghost var filled := h[..];
      FillAddresses(h, src, dest);
      ghost var zeroed := h[..];
      var c := CalcIpChecksum(h[..]);
      h[10], h[11] := Hi(c), Lo(c);
      assert zeroed == h[..][10 := 0][11 := 0];
      HeaderChecksOut(h[..], zeroed);
      FilledStays(filled, h[..], length, old(id), tos, ttl, protocol);
    }

    static lemma FilledStays(h: seq<Byte>, h': seq<Byte>, length: Word, id: Word, tos: Byte, ttl: Byte, protocol: Byte)
      requires |h| == |h'| == HEADER && Filled(h, length, id, tos, ttl, protocol)
      requires forall i :: 0 <= i < 10 ==> h'[i] == h[i]
      ensures Filled(h', length, id, tos, ttl, protocol)
    {
    }

    /** Both addresses. */
    method FillAddresses(h: array<Byte>, src: Address, dest: Address)
      requires h.Length == HEADER
      requires (src.Address? ==> |src.bytes| == 4) && (dest.Address? ==> |dest.bytes| == 4)
      modifies h
      ensures forall i :: 0 <= i < 12 ==> h[i] == old(h[i])
      ensures h[12..16] == if src.Address? then src.bytes else old(h[12..16])
      ensures h[16..20] == if dest.Address? then dest.bytes else old(h[16..20])
    {
      CopyAddress(h, 12, src);
      CopyAddress(h, 16, dest);
    }

    /** The fields before the addresses, with no checksum yet. */
    method FillFields(h: array<Byte>, length: Word, protocol: Byte)
      requires h.Length == HEADER
      modifies this`id, h
      ensures Filled(h[..], length, old(id), tos, ttl, protocol) && h[10] == h[11] == 0
      ensures forall i :: 12 <= i < HEADER ==> h[i] == old(h[i])
      ensures id == if old(id) == 0xFFFF then 0 else old(id) + 1
    {
      hide Hi, Lo;
      h[0], h[1] := 0x45, tos;
      h[2], h[3] := Hi(length), Lo(length);
      h[4], h[5] := Hi(id), Lo(id);
      h[6], h[7] := 0, 0;
      h[8], h[9] := ttl, protocol;
      h[10], h[11] := 0, 0;
      id := if id == 0xFFFF then 0 else id + 1;
    }

    /** memcpy of an address that is not NULL. */
    method CopyAddress(h: array<Byte>, at: nat, addr: Address)
      requires h.Length == HEADER && at + 4 <= HEADER && (addr.Address? ==> |addr.bytes| == 4)
      modifies h
      ensures h[at..at + 4] == if addr.Address? then addr.bytes else old(h[at..at + 4])
      ensures forall i :: 0 <= i < HEADER && (i < at || i >= at + 4) ==> h[i] == old(h[i])
    {
      if addr.Address? {
        h[at], h[at + 1], h[at + 2], h[at + 3] := addr.bytes[0], addr.bytes[1], addr.bytes[2], addr.bytes[3];
      }
    }
  }
}
