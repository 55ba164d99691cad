/**
 * A FITS file written the way the reader expects -- BITPIX, NAXIS and
 * NAXIS1 cards, the END card, padding to one 2880-byte block, then the
 * big-endian 32-bit integers -- reads back as those integers, trimmed to
 * the declared NAXIS1.
 */
module FitsRoundTrip {
  import opened Wrappers
  import opened HeaderText
  import opened Fits

  predicate IsAscii(s: string) {
    forall i :: 0 <= i < |s| ==> s[i] as int < 128
  }

  /** The ASCII bytes of a string. */
  function EncodeAscii(s: string): (bs: seq<byte>)
    requires IsAscii(s)
    ensures |bs| == |s| && forall i :: 0 <= i < |s| ==> bs[i] as int == s[i] as int
  {
    seq(|s|, i requires 0 <= i < |s| => s[i] as int as byte)
  }

  lemma DecodeEncodeAscii(s: string)
    requires IsAscii(s)
    ensures DecodeAscii(EncodeAscii(s)) == s
  {
    var bs := EncodeAscii(s);
    DecodeAsciiOfAscii(bs);
    var d := DecodeAscii(bs);
    assert forall i :: 0 <= i < |s| ==> d[i] as int == s[i] as int;
  }

  function Spaces(n: nat): (s: string)
    ensures |s| == n && forall i :: 0 <= i < n ==> s[i] == ' '
  {
    seq(n, i => ' ')
  }

  /** A card's text padded with spaces to 80 characters. */
  function PadCard(text: string): (card: string)
    requires |text| <= CARD_SIZE
    ensures |card| == CARD_SIZE && card[..|text|] == text
  {
    text + Spaces(CARD_SIZE - |text|)
  }

  /** `KEYWORD = value`, the value written in decimal. */
  function KeywordCard(kw: Keyword, v: int): string
    requires |Decimal(v)| <= 70
  {
    PadCard(Prefix(kw) + " " + Decimal(v))
  }

  /** The header of an int32 file declaring `declared` elements, padded to one block. */
  function Int32Header(declared: nat): string
    requires |Decimal(declared)| <= 70
  {
    KeywordCard(Bitpix, 32) + KeywordCard(Naxis, 1) + KeywordCard(Naxis1, declared)
    + PadCard("END") + Spaces(BLOCK_SIZE - 4 * CARD_SIZE)
  }

  function EncodeInt32s(values: seq<int>): (bs: seq<byte>)
    requires forall i :: 0 <= i < |values| ==> InInt32Range(values[i])
    ensures |bs| == 4 * |values|
  {
    if values == [] then [] else EncodeInt32(values[0]) + EncodeInt32s(values[1..])
  }

  function Int32Samples(values: seq<int>): (data: seq<Sample>)
    ensures |data| == |values| && forall i :: 0 <= i < |values| ==> data[i] == Int32Sample(values[i])
  {
    seq(|values|, i requires 0 <= i < |values| => Int32Sample(values[i]))
  }

  /** Decoding the encoded integers gives the integers back, in order. */
  lemma {:induction false} DecodeInt32s(values: seq<int>)
    requires forall i :: 0 <= i < |values| ==> InInt32Range(values[i])
    ensures DecodeElements(Int32BE, EncodeInt32s(values)) == Int32Samples(values)
  {
    if values != [] {
      var bs := EncodeInt32s(values);
      assert bs[..4] == EncodeInt32(values[0]);
      assert bs[4..] == EncodeInt32s(values[1..]);
      DecodeEncodeInt32(values[0]);
      DecodeInt32s(values[1..]);
    }
  }

  lemma DecimalIsAscii(v: int)
    ensures IsAscii(Decimal(v))
    ensures !IsSpace(Decimal(v)[0]) && !IsSpace(Decimal(v)[|Decimal(v)| - 1])
    ensures '=' !in Decimal(v) && '/' !in Decimal(v)
  {
    DecimalCharacters(v);
  }

  /** A keyword card begins with its keyword's prefix, followed by the value and blanks. */
  lemma KeywordCardLayout(kw: Keyword, v: int)
    requires |Decimal(v)| <= 70
    ensures KeywordOf(KeywordCard(kw, v)) == Some(kw)
    ensures KeywordCard(kw, v)[8] == '='
    ensures KeywordCard(kw, v)[9..] == " " + Decimal(v) + Spaces(70 - |Decimal(v)|)
  {
    var d := Decimal(v);
    var text := Prefix(kw) + " " + d;
    var card := KeywordCard(kw, v);
    var rest := " " + d + Spaces(70 - |d|);
    assert card == Prefix(kw) + rest;
    assert card[..9] == Prefix(kw);
    assert card[9..] == rest;
  }

  /** The value text of a keyword card is the decimal written on it. */
  lemma KeywordCardValueText(kw: Keyword, v: int)
    requires |Decimal(v)| <= 70
    ensures KeywordOf(KeywordCard(kw, v)) == Some(kw)
    ensures ValueText(KeywordCard(kw, v)) == Decimal(v)
  {
    var d := Decimal(v);
    var card := KeywordCard(kw, v);
    KeywordCardLayout(kw, v);
    DecimalIsAscii(v);
    PrefixHead(kw);
    assert card[..8] == card[..9][..8];
    UpToAt(card, '=', 8);
    var rest := card[9..];
    NotInPadded('=', d, 70 - |d|);
    NotInPadded('/', d, 70 - |d|);
    UpToAbsent(rest, '=');
    UpToAbsent(rest, '/');
    StripPadded(" ", d, Spaces(70 - |d|));
  }

  /** Each prefix ends in its only `=`. */
  lemma PrefixHead(kw: Keyword)
    ensures |Prefix(kw)| == 9 && Prefix(kw)[8] == '=' && '=' !in Prefix(kw)[..8]
  {
  }

  /** A character that is neither a blank nor in `d` is not in `d` padded with blanks. */
  lemma NotInPadded(c: char, d: string, n: nat)
    requires c != ' ' && c !in d
    ensures c !in " " + d + Spaces(n)
  {
    var s := " " + d + Spaces(n);
    forall i | 0 <= i < |s| ensures s[i] != c {
      if 1 <= i < 1 + |d| {
        assert s[i] == d[i - 1];
      }
    }
  }

  /** A keyword card sets its keyword to the value written on it. */
  lemma KeywordCardValue(kw: Keyword, v: int)
    requires |Decimal(v)| <= 70
    ensures KeywordOf(KeywordCard(kw, v)) == Some(kw)
    ensures CardValue(KeywordCard(kw, v)) == Some(v)
  {
    KeywordCardValueText(kw, v);
    ParseIntDecimal(v);
  }

  lemma AsciiAppend(a: string, b: string)
    requires IsAscii(a) && IsAscii(b)
    ensures IsAscii(a + b)
  {
    assert forall i :: 0 <= i < |a| ==> (a + b)[i] == a[i];
    assert forall i :: |a| <= i < |a| + |b| ==> (a + b)[i] == b[i - |a|];
  }

  lemma KeywordCardIsAscii(kw: Keyword, v: int)
    requires |Decimal(v)| <= 70
    ensures IsAscii(KeywordCard(kw, v))
  {
    DecimalIsAscii(v);
    AsciiAppend(Prefix(kw), " ");
    AsciiAppend(Prefix(kw) + " ", Decimal(v));
    var text := Prefix(kw) + " " + Decimal(v);
    AsciiAppend(text, Spaces(CARD_SIZE - |text|));
  }

  lemma HeaderIsAscii(declared: nat)
    requires |Decimal(declared)| <= 70
    ensures IsAscii(Int32Header(declared))
  {
    KeywordCardIsAscii(Bitpix, 32);
    KeywordCardIsAscii(Naxis, 1);
    KeywordCardIsAscii(Naxis1, declared);
    AsciiAppend("END", Spaces(CARD_SIZE - 3));
    var c0, c1, c2, c3 := KeywordCard(Bitpix, 32), KeywordCard(Naxis, 1), KeywordCard(Naxis1, declared), PadCard("END");
    AsciiAppend(c0, c1);
    AsciiAppend(c0 + c1, c2);
    AsciiAppend(c0 + c1 + c2, c3);
    AsciiAppend(c0 + c1 + c2 + c3, Spaces(BLOCK_SIZE - 4 * CARD_SIZE));
  }

  /** An int32 FITS file holding `values` whose header declares NAXIS1 = `declared`. */
  function Int32File(values: seq<int>, declared: nat): (file: seq<byte>)
    requires forall i :: 0 <= i < |values| ==> InInt32Range(values[i])
    requires |Decimal(declared)| <= 70
    ensures |file| == BLOCK_SIZE + 4 * |values|
  {
    HeaderIsAscii(declared);
    EncodeAscii(Int32Header(declared)) + EncodeInt32s(values)
  }

  /** A NAXIS1 that fits in 32 bits takes at most ten digits. */
  lemma DeclaredDigits(declared: nat)
    requires declared < 0x8000_0000
    ensures |Decimal(declared)| <= 10
  {
    assert Pow10(10) == 10_000_000_000;
    NatDigitsLength(declared, 10);
  }

  /** The card at `k` of a file whose first bytes are the ASCII text `text`. */
  lemma CardOfText(file: seq<byte>, text: string, k: nat)
    requires IsAscii(text) && CARD_SIZE * (k + 1) <= |text| <= |file|
    requires file[..|text|] == EncodeAscii(text)
    ensures Card(file, k) == text[CARD_SIZE * k..CARD_SIZE * (k + 1)]
  {
    var card := text[CARD_SIZE * k..CARD_SIZE * (k + 1)];
    assert IsAscii(card);
    assert ReadAt(file, CARD_SIZE * k, CARD_SIZE) == EncodeAscii(card);
    DecodeEncodeAscii(card);
  }

  /** The header cards of the int32 file: BITPIX, NAXIS, NAXIS1 and END. */
  function Int32Cards(declared: nat): seq<string>
    requires |Decimal(declared)| <= 70
  {
    [KeywordCard(Bitpix, 32), KeywordCard(Naxis, 1), KeywordCard(Naxis1, declared), PadCard("END")]
  }

  /** A keyword card is never taken for the END card. */
  lemma KeywordCardIsNotEnd(card: string)
    requires KeywordOf(card).Some?
    ensures !IsEndCard(card)
  {
    assert card[0] == Prefix(KeywordOf(card).value)[0];
  }

  /** A file whose first three cards set keywords and whose fourth is END. */
  lemma EndIsFourthCard(file: seq<byte>)
    requires |file| > 3 * CARD_SIZE
    requires KeywordOf(Card(file, 0)).Some? && KeywordOf(Card(file, 1)).Some? && KeywordOf(Card(file, 2)).Some?
    requires IsEndCard(Card(file, 3))
    ensures FirstEnd(file) == Some(3)
  {
    KeywordCardIsNotEnd(Card(file, 0));
    KeywordCardIsNotEnd(Card(file, 1));
    KeywordCardIsNotEnd(Card(file, 2));
    assert FindEndFrom(file, 3) == Some(3);
    assert FindEndFrom(file, 2) == FindEndFrom(file, 3);
    assert FindEndFrom(file, 1) == FindEndFrom(file, 2);
    assert FindEndFrom(file, 0) == FindEndFrom(file, 1);
  }

  /** The header text of the int32 file is encoded at its very start. */
  lemma Int32FileText(values: seq<int>, declared: nat)
    requires forall i :: 0 <= i < |values| ==> InInt32Range(values[i])
    requires |Decimal(declared)| <= 70
    ensures IsAscii(Int32Header(declared))
    ensures var text, file := Int32Header(declared), Int32File(values, declared);
      |text| <= |file| && file[..|text|] == EncodeAscii(text)
  {
    HeaderIsAscii(declared);
  }

  /** The first two cards of the int32 file are BITPIX and NAXIS. */
  lemma Int32FileFrontCards(values: seq<int>, declared: nat)
    requires forall i :: 0 <= i < |values| ==> InInt32Range(values[i])
    requires |Decimal(declared)| <= 70
    ensures var file, cs := Int32File(values, declared), Int32Cards(declared);
      Card(file, 0) == cs[0] && Card(file, 1) == cs[1]
  {
    var cs := Int32Cards(declared);
    var text := Int32Header(declared);
    var file := Int32File(values, declared);
    Int32FileText(values, declared);
    CardOfText(file, text, 0);
    CardOfText(file, text, 1);
    assert text[0..80] == cs[0];
    assert text[80..160] == cs[1];
  }

  /** The third and fourth cards of the int32 file are NAXIS1 and END. */
  lemma Int32FileBackCards(values: seq<int>, declared: nat)
    requires forall i :: 0 <= i < |values| ==> InInt32Range(values[i])
    requires |Decimal(declared)| <= 70
    ensures var file, cs := Int32File(values, declared), Int32Cards(declared);
      Card(file, 2) == cs[2] && Card(file, 3) == cs[3]
  {
    var cs := Int32Cards(declared);
    var text := Int32Header(declared);
    var file := Int32File(values, declared);
    Int32FileText(values, declared);
    CardOfText(file, text, 2);
    CardOfText(file, text, 3);
    assert text[160..240] == cs[2];
    assert text[240..320] == cs[3];
  }

  lemma FourHeaderCards(file: seq<byte>, cs: seq<string>)
    requires |cs| == 4
    requires Card(file, 0) == cs[0] && Card(file, 1) == cs[1] && Card(file, 2) == cs[2] && Card(file, 3) == cs[3]
    ensures HeaderCards(file, 4) == cs
  {
  }

  /** The header scan of the int32 file stops at its fourth card. */
  lemma Int32FileHeader(values: seq<int>, declared: nat)
    requires forall i :: 0 <= i < |values| ==> InInt32Range(values[i])
    requires |Decimal(declared)| <= 70
    ensures FirstEnd(Int32File(values, declared)) == Some(3)
    ensures HeaderCards(Int32File(values, declared), 4) == Int32Cards(declared)
  {
    var cs := Int32Cards(declared);
    var file := Int32File(values, declared);
    Int32FileFrontCards(values, declared);
    Int32FileBackCards(values, declared);
    KeywordCardValue(Bitpix, 32);
    KeywordCardValue(Naxis, 1);
    KeywordCardValue(Naxis1, declared);
    assert cs[3][..3] == "END";
    EndIsFourthCard(file);
    FourHeaderCards(file, cs);
  }

  /** Four cards setting BITPIX, NAXIS and NAXIS1 in that order, then one setting nothing. */
  lemma KeywordsOfFourCards(cards: seq<string>, bitpix: int, naxis: int, naxis1: int)
    requires |cards| == 4
    requires KeywordOf(cards[0]) == Some(Bitpix) && CardValue(cards[0]) == Some(bitpix)
    requires KeywordOf(cards[1]) == Some(Naxis) && CardValue(cards[1]) == Some(naxis)
    requires KeywordOf(cards[2]) == Some(Naxis1) && CardValue(cards[2]) == Some(naxis1)
    requires KeywordOf(cards[3]) == None
    ensures KeywordsOf(cards) == Success(Keywords(Some(naxis), Some(naxis1), Some(bitpix)))
  {
    var kws := [Some(Bitpix), Some(Naxis), Some(Naxis1), None];
    assert forall j :: 0 <= j < 4 ==> KeywordOf(cards[j]) == kws[j];
    LastCardIs(cards, Bitpix, 0);
    LastCardIs(cards, Naxis, 1);
    LastCardIs(cards, Naxis1, 2);
  }

  /** The END card sets none of the three keywords. */
  lemma EndCardSetsNothing()
    ensures KeywordOf(PadCard("END")) == None
  {
    var endCard := PadCard("END");
    assert endCard[0] == 'E';
    KeywordOfIsPrefix(endCard, Naxis);
    KeywordOfIsPrefix(endCard, Naxis1);
    KeywordOfIsPrefix(endCard, Bitpix);
  }

  /** The int32 header sets BITPIX = 32, NAXIS = 1 and NAXIS1 = `declared`. */
  lemma Int32FileKeywords(declared: nat)
    requires |Decimal(declared)| <= 70
    ensures KeywordsOf(Int32Cards(declared)) == Success(Keywords(Some(1), Some(declared), Some(32)))
  {
    KeywordCardValue(Bitpix, 32);
    KeywordCardValue(Naxis, 1);
    KeywordCardValue(Naxis1, declared);
    EndCardSetsNothing();
    KeywordsOfFourCards(Int32Cards(declared), 32, 1, declared);
  }

  /** The data of the int32 file starts at byte 2880 and is the encoded values. */
  lemma Int32FilePayload(values: seq<int>, declared: nat)
    requires forall i :: 0 <= i < |values| ==> InInt32Range(values[i])
    requires |Decimal(declared)| <= 70
    ensures DataOffset(4) == BLOCK_SIZE
    ensures Int32File(values, declared)[Min(BLOCK_SIZE, |Int32File(values, declared)|)..] == EncodeInt32s(values)
  {
    HeaderIsAscii(declared);
  }

  /** The encoded integers are a whole number of int32 elements and decode to the integers. */
  lemma DecodeInt32Payload(values: seq<int>)
    requires forall i :: 0 <= i < |values| ==> InInt32Range(values[i])
    ensures DecodePayload(Int32BE, EncodeInt32s(values)) == Success(Int32Samples(values))
  {
    var bs := EncodeInt32s(values);
    WholeWords(|values|);
    assert |bs| % Width(Int32BE) == 0;
    DecodeInt32s(values);
  }

  lemma WholeWords(n: nat)
    ensures (4 * n) % 4 == 0
  {
  }

  lemma TrimPositive(all: seq<Sample>, n: nat)
    requires 0 < n
    ensures TrimToNaxis1(all, Some(n)) == all[..Min(n, |all|)]
  {
  }

  /** The reader's result on a file whose header declares int32 data and NAXIS1 = `declared`. */
  lemma ReadTrimmed(file: seq<byte>, declared: nat, all: seq<Sample>)
    requires 0 < declared
    requires FirstEnd(file) == Some(3)
    requires KeywordsOf(HeaderCards(file, 4)) == Success(Keywords(Some(1), Some(declared), Some(32)))
    requires DecodePayload(Int32BE, file[Min(DataOffset(4), |file|)..]) == Success(all)
    ensures all == [] ==> ReadSpec(file) == Failure(EmptyData)
    ensures all != [] ==> ReadSpec(file) == Success(all[..Min(declared, |all|)])
  {
    var kw := Keywords(Some(1), Some(declared), Some(32));
    assert ElementTypeFor(kw.bitpix) == Int32BE;
    TrimPositive(all, declared);
    ReadSpecOf(file, 3, kw, all);
  }

  /** What the reader makes of a file with an END card at 3, an int32 header and the given payload. */
  lemma ReadInt32Layout(file: seq<byte>, declared: nat, values: seq<int>)
    requires forall i :: 0 <= i < |values| ==> InInt32Range(values[i])
    requires 0 < declared
    requires FirstEnd(file) == Some(3)
    requires KeywordsOf(HeaderCards(file, 4)) == Success(Keywords(Some(1), Some(declared), Some(32)))
    requires DataOffset(4) == BLOCK_SIZE
    requires file[Min(BLOCK_SIZE, |file|)..] == EncodeInt32s(values)
    ensures values == [] ==> ReadSpec(file) == Failure(EmptyData)
    ensures values != [] ==> ReadSpec(file) == Success(Int32Samples(values)[..Min(declared, |values|)])
  {
    DecodeInt32Payload(values);
    assert file[Min(DataOffset(4), |file|)..] == EncodeInt32s(values);
    ReadTrimmed(file, declared, Int32Samples(values));
  }

  /**
   * Round trip: the int32 file written for `values` with NAXIS1 = `declared`
   * reads back as the first `declared` of the values (all of them when
   * fewer are stored), and as an error when no value is stored.
   */
  lemma ReadInt32File(values: seq<int>, declared: nat)
    requires forall i :: 0 <= i < |values| ==> InInt32Range(values[i])
    requires 0 < declared < 0x8000_0000
    ensures |Decimal(declared)| <= 70
    ensures values == [] ==> ReadSpec(Int32File(values, declared)) == Failure(EmptyData)
    ensures values != [] ==>
      ReadSpec(Int32File(values, declared)) == Success(Int32Samples(values)[..Min(declared, |values|)])
  {
    DeclaredDigits(declared);
    Int32FileHeader(values, declared);
    Int32FileKeywords(declared);
    Int32FilePayload(values, declared);
    ReadInt32Layout(Int32File(values, declared), declared, values);
  }
}
