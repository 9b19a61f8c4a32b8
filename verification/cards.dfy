/**
 * Playing cards and their numbering (src/card.rs).
 *
 * Cards are numbered 1..54: thirteen clubs, then diamonds, hearts and spades,
 * then Joker A (53) and Joker B (54). A card is encoded as
 * `13 * suit index + rank value`, and decoded by dividing `value - 1` by 13.
 */
module Cards {
  import opened Prelude

  /**
   * Number of cards in a full deck (`DECK_SIZE`). Where it divides or
   * multiplies, the code below writes the literal (54, or 53 for the deck
   * without its bottom card) so that the arithmetic stays linear.
   */
  const DeckSize: nat := 54

  /** Number of cards in a suit (`SUIT_SIZE`); written 13 where it divides. */
  const SuitSize: nat := 13

  datatype Suit = Club | Diamond | Heart | Spade | Joker

  /** The `#[repr(u8)]` discriminant of a suit (`suit as u8`). */
  function SuitIndex(s: Suit): (i: nat)
    ensures i <= 4
    ensures i == 4 <==> s == Joker
  {
    match s
    case Club => 0
    case Diamond => 1
    case Heart => 2
    case Spade => 3
    case Joker => 4
  }

  /** `Suit::try_from(u8)`: the suit of the card numbered `v`. */
  function SuitFromByte(v: Byte): (r: Result<Suit, string>)
    ensures r.Ok? <==> 1 <= v <= DeckSize
    ensures r.Ok? ==> SuitIndex(r.value) == (v - 1) / 13
  {
    if v == 0 || v > DeckSize then Err("value out of range")
    else
      match (v - 1) / 13
      case 0 => Ok(Club)
      case 1 => Ok(Diamond)
      case 2 => Ok(Heart)
      case 3 => Ok(Spade)
      case 4 => Ok(Joker)
      case _ => assert false; Err("already filtered out high values")
  }

  datatype Rank = Number(n: Byte) | Jack | Queen | King

  /** `Rank::value`: a number's own value, 11, 12 and 13 for the faces. */
  function RankValue(r: Rank): (v: Byte)
    ensures !r.Number? ==> 11 <= v <= 13
    ensures CanonicalRank(r) ==> v <= 13
  {
    match r
    case Number(n) => n
    case Jack => 11
    case Queen => 12
    case King => 13
  }

  /** The form `Rank::try_from` produces: numbers only for 1..10. */
  predicate CanonicalRank(r: Rank)
  {
    r.Number? ==> 1 <= r.n <= 10
  }

  /** `Rank::try_from(u8)`: the rank of the card numbered `v`. */
  function RankFromByte(v: Byte): (r: Result<Rank, string>)
    ensures r.Ok? <==> 1 <= v <= DeckSize
    ensures r.Ok? ==> CanonicalRank(r.value) && RankValue(r.value) == (v - 1) % 13 + 1
  {
    if v == 0 || v > DeckSize then Err("value out of range")
    else
      var n := (v - 1) % 13 + 1;
      if 1 <= n <= 10 then Ok(Number(n))
      else if n == 11 then Ok(Jack)
      else if n == 12 then Ok(Queen)
      else if n == 13 then Ok(King)
      else assert false; Err("invalid rank number")
  }

  /** A canonical rank is determined by its value. */
  lemma {:induction false} RankValueInjective(r1: Rank, r2: Rank)
    requires CanonicalRank(r1) && CanonicalRank(r2)
    requires RankValue(r1) == RankValue(r2)
    ensures r1 == r2
  {
    match r1
    case Number(n) =>
    case Jack =>
    case Queen =>
    case King =>
  }

  datatype Card = Card(suit: Suit, rank: Rank)

  /** `Card::default()`, the filler of freshly built arrays. */
  function DefaultCard(): (c: Card)
    ensures ValidCard(c) && Encodable(c) && CardToByte(c) == 1
  {
    Card(Club, Number(1))
  }

  /** `Card::joker_a()`. */
  function JokerA(): (c: Card)
    ensures ValidCard(c) && c.suit == Joker && Encodable(c) && CardToByte(c) == DeckSize - 1
  {
    Card(Joker, Number(1))
  }

  /** `Card::joker_b()`. */
  function JokerB(): (c: Card)
    ensures ValidCard(c) && c.suit == Joker && Encodable(c) && CardToByte(c) == DeckSize
  {
    Card(Joker, Number(2))
  }

  /**
   * A card that some number in 1..54 decodes to: a suited card with a rank in
   * 1..13 (numbers only up to 10), or one of the two jokers.
   */
  predicate ValidCard(c: Card)
  {
    if c.suit == Joker then c.rank == Number(1) || c.rank == Number(2)
    else CanonicalRank(c.rank) && RankValue(c.rank) >= 1
  }

  /** `u8::from(card)` does not overflow. */
  predicate Encodable(c: Card)
  {
    13 * SuitIndex(c.suit) + RankValue(c.rank) < 256
  }

  /** `From<Card> for u8`: thirteen times the suit index plus the rank value. */
  function CardToByte(c: Card): (b: Byte)
    requires Encodable(c)
    ensures ValidCard(c) ==> 1 <= b <= DeckSize
    ensures ValidCard(c) ==> (b > DeckSize - 2 <==> c.suit == Joker)
  {
    13 * SuitIndex(c.suit) + RankValue(c.rank)
  }

  /** `Card::try_from(u8)`: suit first, then rank, each failing out of range. */
  function CardFromByte(v: Byte): (r: Result<Card, string>)
    ensures r.Ok? <==> 1 <= v <= DeckSize
    ensures r.Ok? ==> ValidCard(r.value)
    ensures r.Ok? ==> (r.value.suit == Joker <==> v > DeckSize - 2)
  {
    match SuitFromByte(v)
    case Err(e) => Err(e)
    case Ok(suit) =>
      match RankFromByte(v)
      case Err(e) => Err(e)
      case Ok(rank) =>
        assert suit == Joker ==> (v - 1) / 13 == 4;
        Ok(Card(suit, rank))
  }

  /** Every number of the deck decodes to a card that encodes back to it. */
  lemma {:induction false} EncodeDecode(v: Byte)
    requires 1 <= v <= DeckSize
    ensures CardFromByte(v).Ok?
    ensures Encodable(CardFromByte(v).value)
    ensures CardToByte(CardFromByte(v).value) == v
  {
    var c := CardFromByte(v).value;
    var q, m := (v - 1) / 13, (v - 1) % 13;
    assert v - 1 == q * 13 + m;
    assert SuitIndex(c.suit) == q && RankValue(c.rank) == m + 1;
  }

  /** Every valid card encodes to a number that decodes back to it. */
  lemma {:induction false} DecodeEncode(c: Card)
    requires ValidCard(c)
    ensures Encodable(c)
    ensures CardFromByte(CardToByte(c)) == Ok(c)
  {
    var s, k := SuitIndex(c.suit), RankValue(c.rank);
    var v := s * 13 + k;
    assert 1 <= k <= SuitSize;
    assert (v - 1) / 13 == s && (v - 1) % 13 == k - 1;
    var d := CardFromByte(v).value;
    assert SuitIndex(d.suit) == s;
    RankValueInjective(d.rank, c.rank);
  }

  /** Distinct valid cards have distinct numbers. */
  lemma {:induction false} EncodeInjective(c1: Card, c2: Card)
    requires ValidCard(c1) && ValidCard(c2)
    ensures CardToByte(c1) == CardToByte(c2) ==> c1 == c2
  {
    DecodeEncode(c1);
    DecodeEncode(c2);
  }

  /** Joker A is number 53, Joker B number 54, and both decode back. */
  lemma JokerNumbers()
    ensures ValidCard(JokerA()) && ValidCard(JokerB())
    ensures CardToByte(JokerA()) == 53 && CardToByte(JokerB()) == 54
    ensures CardFromByte(53) == Ok(JokerA()) && CardFromByte(54) == Ok(JokerB())
  {
    DecodeEncode(JokerA());
    DecodeEncode(JokerB());
  }

  /**
   * The count of a card in the Solitaire rules: its number, except that both
   * jokers count 53. The deck code calls this `value()`, which the card code
   * does not define.
   */
  function Value(c: Card): (k: nat)
    requires ValidCard(c)
    ensures 1 <= k <= DeckSize - 1
    ensures k == DeckSize - 1 <==> c.suit == Joker
    ensures c.suit != Joker ==> k == CardToByte(c)
  {
    if c.suit == Joker then DeckSize - 1 else CardToByte(c)
  }
}
