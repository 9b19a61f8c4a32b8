/**
 * The 54-card deck and the Solitaire primitives (src/deck.rs).
 *
 * The functions at the top describe each primitive on a sequence of cards,
 * slice by slice as the source copies them; the lemmas give the resulting
 * position of every card and show that each primitive only permutes the
 * deck. The class `Deck` holds the array that the source rewrites, and each
 * of its methods is proved to produce exactly what the matching function
 * describes.
 */
module Decks {
  import opened Prelude
  import opened Cards

  /** The sorted deck: the card numbered `i + 1` at index `i`. */
  function SortedDeck(): (d: seq<Card>)
    ensures |d| == DeckSize
    ensures forall i :: 0 <= i < DeckSize ==> ValidCard(d[i]) && Encodable(d[i]) && CardToByte(d[i]) == i + 1
  {
    var d := seq(DeckSize, i requires 0 <= i < DeckSize => CardFromByte(i + 1).value);
    assert forall i :: 0 <= i < DeckSize ==> ValidCard(d[i]) && Encodable(d[i]) && CardToByte(d[i]) == i + 1 by {
      forall i | 0 <= i < DeckSize
        ensures ValidCard(d[i]) && Encodable(d[i]) && CardToByte(d[i]) == i + 1
      {
        EncodeDecode(i + 1);
      }
    }
    d
  }

  /** No card occurs twice. */
  ghost predicate Distinct(d: seq<Card>)
  {
    forall i, j :: 0 <= i < j < |d| ==> d[i] != d[j]
  }

  /**
   * A deck: 54 cards, a permutation of the sorted deck (which makes each of
   * them a valid card; `PermutedDeck` shows the second conjunct follows).
   */
  ghost predicate IsDeck(d: seq<Card>)
  {
    && |d| == DeckSize
    && multiset(d) == multiset(SortedDeck())
    && forall i :: 0 <= i < |d| ==> ValidCard(d[i])
  }

  /**
   * What a round asks of a deck: 54 valid cards, both jokers among them.
   * Every deck is playable (`DeckFacts`), and so is every rearrangement of a
   * playable sequence (`PermutedPlayable`).
   */
  predicate Playable(d: seq<Card>)
  {
    && |d| == DeckSize
    && (forall i :: 0 <= i < |d| ==> ValidCard(d[i]))
    && JokerA() in d && JokerB() in d
  }

  /** The sorted deck holds exactly the valid cards, each once. */
  lemma {:induction false} SortedDeckCards(c: Card)
    ensures c in SortedDeck() <==> ValidCard(c)
    ensures ValidCard(c) ==> SortedDeck()[CardToByte(c) - 1] == c
  {
    var d := SortedDeck();
    if ValidCard(c) {
      DecodeEncode(c);
    }
    if ValidCard(c) {
      assert d[CardToByte(c) - 1] == c;
    }
    if c in d {
      var i :| 0 <= i < |d| && d[i] == c;
    }
  }

  lemma {:induction false} SortedDeckDistinct()
    ensures Distinct(SortedDeck())
  {
    var d := SortedDeck();
    forall i, j | 0 <= i < j < |d|
      ensures d[i] != d[j]
    {
      assert CardToByte(d[i]) != CardToByte(d[j]);
    }
  }

  /** A sequence without repetition counts each of its cards once. */
  lemma {:induction false} DistinctCounts(d: seq<Card>)
    ensures Distinct(d) <==> forall c :: multiset(d)[c] <= 1
  {
    if d != [] {
      var rest := d[1..];
      assert d == [d[0]] + rest;
      DistinctCounts(rest);
      if Distinct(d) {
        assert Distinct(rest) by {
          forall i, j | 0 <= i < j < |rest| ensures rest[i] != rest[j] {
            assert rest[i] == d[i + 1] && rest[j] == d[j + 1];
          }
        }
        assert d[0] !in rest by {
          forall k | 0 <= k < |rest| ensures rest[k] != d[0] {
            assert rest[k] == d[k + 1];
          }
        }
        forall c ensures multiset(d)[c] <= 1 {
          assert multiset(d)[c] == multiset([d[0]])[c] + multiset(rest)[c];
        }
      } else {
        var i, j :| 0 <= i < j < |d| && d[i] == d[j];
        if i == 0 {
          assert d[j] in rest by { assert rest[j - 1] == d[j]; }
          assert multiset(d)[d[0]] == 1 + multiset(rest)[d[0]];
        } else {
          assert !Distinct(rest) by { assert rest[i - 1] == d[i] && rest[j - 1] == d[j]; }
          var c :| multiset(rest)[c] > 1;
          assert multiset(d)[c] >= multiset(rest)[c];
        }
      }
    }
  }

  /** A rearrangement of a sequence without repetition has none either. */
  lemma {:induction false} DistinctPermuted(d: seq<Card>, r: seq<Card>)
    requires Distinct(d) && multiset(r) == multiset(d)
    ensures Distinct(r)
  {
    DistinctCounts(d);
    DistinctCounts(r);
  }

  /** Any rearrangement of a deck is a deck. */
  lemma {:induction false} PermutedDeck(d: seq<Card>, r: seq<Card>)
    requires IsDeck(d) && |r| == DeckSize && multiset(r) == multiset(d)
    ensures IsDeck(r)
  {
    forall i | 0 <= i < |r| ensures ValidCard(r[i]) {
      assert r[i] in multiset(SortedDeck());
      SortedDeckCards(r[i]);
    }
  }

  /** What every deck provides besides valid cards: no repetition, both jokers. */
  lemma {:induction false} DeckFacts(d: seq<Card>)
    requires IsDeck(d)
    ensures Distinct(d)
    ensures JokerA() in d && JokerB() in d
    ensures Playable(d)
  {
    SortedDeckDistinct();
    DistinctCounts(SortedDeck());
    DistinctCounts(d);
    JokerNumbers();
    SortedDeckCards(JokerA());
    SortedDeckCards(JokerB());
    assert JokerA() in multiset(d) && JokerB() in multiset(d);
  }

  /** Any rearrangement of a playable sequence is playable. */
  lemma {:induction false} PermutedPlayable(d: seq<Card>, r: seq<Card>)
    requires Playable(d) && |r| == DeckSize && multiset(r) == multiset(d)
    ensures Playable(r)
  {
    forall i | 0 <= i < |r| ensures ValidCard(r[i]) {
      assert r[i] in multiset(d);
    }
    assert JokerA() in multiset(r) && JokerB() in multiset(r);
  }

  /** `find`: the first index holding `c` (`IndexOfFirst`). */
  function IndexOf(d: seq<Card>, c: Card): (i: nat)
    requires c in d
    ensures i < |d| && d[i] == c
  {
    IndexFrom(d, c, 0)
  }

  /** The first index from `k` on holding `c`. */
  function IndexFrom(d: seq<Card>, c: Card, k: nat): (i: nat)
    requires k <= |d| && c in d[k..]
    ensures k <= i < |d| && d[i] == c
    decreases |d| - k
  {
    if d[k] == c then k
    else
      assert c in d[k + 1..] by { assert d[k..] == [d[k]] + d[k + 1..]; }
      IndexFrom(d, c, k + 1)
  }

  /** `IndexFrom` passes over no occurrence of `c`. */
  lemma {:induction false} IndexFromSkips(d: seq<Card>, c: Card, k: nat, j: nat)
    requires k <= |d| && c in d[k..] && k <= j < IndexFrom(d, c, k)
    ensures d[j] != c
    decreases |d| - k
  {
    if j > k {
      assert d[k..] == [d[k]] + d[k + 1..];
      IndexFromSkips(d, c, k + 1, j);
    }
  }

  /** `IndexOf` is the index holding `c` with no `c` before it. */
  lemma {:induction false} IndexOfFirst(d: seq<Card>, c: Card, i: nat)
    requires c in d && i < |d|
    ensures IndexOf(d, c) == i <==> d[i] == c && forall j :: 0 <= j < i ==> d[j] != c
  {
    if IndexOf(d, c) == i {
      forall j | 0 <= j < i ensures d[j] != c {
        IndexFromSkips(d, c, 0, j);
      }
    } else if IndexOf(d, c) > i {
      IndexFromSkips(d, c, 0, i);
    }
  }

  /** In a deck without repetition, the card at index `i` is found at `i`. */
  lemma {:induction false} IndexOfDistinct(d: seq<Card>, i: nat)
    requires Distinct(d) && i < |d|
    ensures IndexOf(d, d[i]) == i
  {
  }

  // ---------------------------------------------------------------- push

  /** Where `push` puts the card that sits at `idx`, pushed down by `n`. */
  function Dest(idx: nat, n: nat): (r: nat)
    ensures idx < DeckSize ==> r < DeckSize
    ensures idx < DeckSize && idx + n % 54 >= DeckSize ==> r <= idx
  {
    var m := n % 54;
    if idx + m >= DeckSize then (idx + m) % 53 else idx + m
  }

  /**
   * The index of the card that `push` of the card at `idx` by `n` moves to
   * index `j`. Without wrap-around the cards between `idx` and the
   * destination move up one slot; with wrap-around they move down one.
   */
  function PushSource(idx: nat, n: nat, j: nat): (i: nat)
    requires idx < DeckSize && j < DeckSize
    ensures i < DeckSize
  {
    var m, dest := n % 54, Dest(idx, n);
    if idx + m < DeckSize then
      (if j < idx || j > dest then j else if j == dest then idx else j + 1)
    else
      (if j < dest || j > idx then j else if j == dest then idx else j - 1)
  }

  /** `push` of the card at `idx` by `n`, slot by slot. */
  function PushAt(d: seq<Card>, idx: nat, n: nat): (r: seq<Card>)
    requires |d| == DeckSize && idx < DeckSize
    ensures |r| == DeckSize && multiset(r) == multiset(d)
    ensures r[Dest(idx, n)] == d[idx]
  {
    var r := seq(DeckSize, j requires 0 <= j < DeckSize => d[PushSource(idx, n, j)]);
    PushSlices(d, idx, n, r);
    r
  }

  /**
   * The slices `push` copies: without wrap-around, the cards below the
   * pushed one move up over it; with wrap-around, the pushed card is put at
   * its destination and the cards from there to its old index move down.
   */
  lemma {:induction false} PushSlices(d: seq<Card>, idx: nat, n: nat, r: seq<Card>)
    requires |d| == DeckSize && idx < DeckSize && |r| == DeckSize
    requires forall j :: 0 <= j < DeckSize ==> r[j] == d[PushSource(idx, n, j)]
    ensures var m, dest := n % 54, Dest(idx, n);
      r == if idx + m >= DeckSize then d[..dest] + [d[idx]] + d[dest..idx] + d[idx + 1..]
           else d[..idx] + d[idx + 1..idx + m + 1] + [d[idx]] + d[idx + m + 1..]
    ensures multiset(r) == multiset(d)
  {
    var m := n % 54;
    if idx + m >= DeckSize {
      PushSlicesWrap(d, idx, m, Dest(idx, n), r);
    } else {
      PushSlicesInside(d, idx, m, r);
    }
  }

  /** `PushSlices` with wrap-around: the pushed card goes to `dest <= idx`. */
  lemma {:induction false} PushSlicesWrap(d: seq<Card>, idx: nat, m: nat, dest: nat, r: seq<Card>)
    requires |d| == DeckSize && dest <= idx < DeckSize && |r| == DeckSize
    requires forall j :: 0 <= j < DeckSize ==> r[j] == d[if j < dest || j > idx then j else if j == dest then idx else j - 1]
    ensures r == d[..dest] + [d[idx]] + d[dest..idx] + d[idx + 1..]
    ensures multiset(r) == multiset(d)
  {
    var s := d[..dest] + [d[idx]] + d[dest..idx] + d[idx + 1..];
    assert |s| == DeckSize;
    forall j | 0 <= j < DeckSize ensures r[j] == s[j] {
      if j < dest {
      } else if j == dest {
      } else if j <= idx {
        assert s[j] == d[dest..idx][j - dest - 1];
      } else {
        assert s[j] == d[idx + 1..][j - idx - 1];
      }
    }
    assert r == s;
    assert d == d[..dest] + d[dest..idx] + [d[idx]] + d[idx + 1..];
  }

  /** `PushSlices` without wrap-around: the pushed card goes to `idx + m`. */
  lemma {:induction false} PushSlicesInside(d: seq<Card>, idx: nat, m: nat, r: seq<Card>)
    requires |d| == DeckSize && idx + m < DeckSize && |r| == DeckSize
    requires forall j :: 0 <= j < DeckSize ==> r[j] == d[if j < idx || j > idx + m then j else if j == idx + m then idx else j + 1]
    ensures r == d[..idx] + d[idx + 1..idx + m + 1] + [d[idx]] + d[idx + m + 1..]
    ensures multiset(r) == multiset(d)
  {
    var s := d[..idx] + d[idx + 1..idx + m + 1] + [d[idx]] + d[idx + m + 1..];
    assert |s| == DeckSize;
    forall j | 0 <= j < DeckSize ensures r[j] == s[j] {
      if j < idx {
      } else if j < idx + m {
        assert s[j] == d[idx + 1..idx + m + 1][j - idx];
      } else if j == idx + m {
      } else {
        assert s[j] == d[idx + m + 1..][j - idx - m - 1];
      }
    }
    assert r == s;
    assert d == d[..idx] + [d[idx]] + d[idx + 1..idx + m + 1] + d[idx + m + 1..];
  }

  /**
   * A wrapping push lands at or above the old index, and never at the top
   * unless the distance is 53 modulo 54 (a full turn of the 53 gaps).
   */
  lemma {:induction false} PushDest(idx: nat, n: nat)
    requires idx < DeckSize
    ensures Dest(idx, n) < DeckSize
    ensures idx + n % 54 < DeckSize ==> Dest(idx, n) == idx + n % 54
    ensures idx + n % 54 >= DeckSize ==> Dest(idx, n) <= idx
    ensures Dest(idx, n) == 0 <==>
              (idx == 0 && n % 54 == 0) || (idx == DeckSize - 1 && n % 54 == DeckSize - 1)
  {
  }

  /** `push(card, n)` on a sequence: find the card, then push it. */
  function PushCard(d: seq<Card>, c: Card, n: nat): (r: seq<Card>)
    requires |d| == DeckSize && c in d
    ensures |r| == DeckSize && multiset(r) == multiset(d)
    ensures r[Dest(IndexOf(d, c), n)] == c
  {
    PushAt(d, IndexOf(d, c), n)
  }

  /** Pushing by two moves each card where pushing by one twice does. */
  lemma {:induction false} PushSourceTwice(idx: nat, j: nat)
    requires idx < DeckSize && j < DeckSize
    ensures Dest(Dest(idx, 1), 1) == Dest(idx, 2)
    ensures PushSource(idx, 1, PushSource(Dest(idx, 1), 1, j)) == PushSource(idx, 2, j)
  {
    if idx < DeckSize - 2 {
      assert Dest(idx, 1) == idx + 1 && Dest(idx, 2) == idx + 2;
    } else if idx == DeckSize - 2 {
      assert Dest(idx, 1) == DeckSize - 1 && Dest(idx, 2) == 1 && Dest(DeckSize - 1, 1) == 1;
    } else {
      assert Dest(idx, 1) == 1 && Dest(idx, 2) == 2;
    }
  }

  /** Pushing by two is pushing by one twice. */
  lemma {:induction false} PushTwice(d: seq<Card>, idx: nat)
    requires |d| == DeckSize && idx < DeckSize
    ensures PushAt(PushAt(d, idx, 1), Dest(idx, 1), 1) == PushAt(d, idx, 2)
  {
    var d1 := PushAt(d, idx, 1);
    var r1, r2 := PushAt(d1, Dest(idx, 1), 1), PushAt(d, idx, 2);
    forall j | 0 <= j < DeckSize ensures r1[j] == r2[j] {
      PushSourceTwice(idx, j);
    }
  }

  /** On a deck without repetition, `push(c, 2)` is `push(c, 1)` twice. */
  lemma {:induction false} PushCardTwice(d: seq<Card>, c: Card)
    requires |d| == DeckSize && Distinct(d) && c in d
    ensures PushCard(PushCard(d, c, 1), c, 1) == PushCard(d, c, 2)
  {
    var idx := IndexOf(d, c);
    var d1 := PushCard(d, c, 1);
    DistinctPermuted(d, d1);
    IndexOfDistinct(d1, Dest(idx, 1));
    PushTwice(d, idx);
  }

  // ---------------------------------------------------------- triple cut

  /**
   * The index of the card that `triple_cut` with the two cards at
   * `i0 < i1` moves to index `j`: first the block below `i1`, then the block
   * from `i0` to `i1`, then the block above `i0`.
   */
  function TripleCutSource(i0: nat, i1: nat, j: nat): (i: nat)
    requires i0 < i1 < DeckSize && j < DeckSize
    ensures i < DeckSize
  {
    var lo, hi := DeckSize - 1 - i1, DeckSize - 1 - i0;
    if j < lo then i1 + 1 + j
    else if j <= hi then i0 + (j - lo)
    else j - hi - 1
  }

  /** `triple_cut` with the two cards at `i0 < i1`, slot by slot. */
  function TripleCutAt(d: seq<Card>, i0: nat, i1: nat): (r: seq<Card>)
    requires |d| == DeckSize && i0 < i1 < DeckSize
    ensures |r| == DeckSize && multiset(r) == multiset(d)
    ensures r[DeckSize - 1 - i1] == d[i0] && r[DeckSize - 1 - i0] == d[i1]
  {
    var r := seq(DeckSize, j requires 0 <= j < DeckSize => d[TripleCutSource(i0, i1, j)]);
    TripleCutSlices(d, i0, i1, r);
    r
  }

  /**
   * The slices `triple_cut` copies: the block below the second card, the
   * two cards with everything between them (same size), the block above the
   * first card.
   */
  lemma {:induction false} TripleCutSlices(d: seq<Card>, i0: nat, i1: nat, r: seq<Card>)
    requires |d| == DeckSize && i0 < i1 < DeckSize && |r| == DeckSize
    requires forall j :: 0 <= j < DeckSize ==> r[j] == d[TripleCutSource(i0, i1, j)]
    ensures r == d[i1 + 1..] + d[i0..i1 + 1] + d[..i0]
    ensures multiset(r) == multiset(d)
  {
    var lo, hi := DeckSize - 1 - i1, DeckSize - 1 - i0;
    var s := d[i1 + 1..] + d[i0..i1 + 1] + d[..i0];
    assert |s| == DeckSize;
    forall j | 0 <= j < DeckSize ensures r[j] == s[j] {
      if j < lo {
        assert s[j] == d[i1 + 1..][j];
      } else if j <= hi {
        assert s[j] == d[i0..i1 + 1][j - lo];
      } else {
        assert s[j] == d[..i0][j - hi - 1];
      }
    }
    assert r == s;
    assert d == d[..i0] + d[i0..i1 + 1] + d[i1 + 1..];
  }

  /** Cutting again at the moved pair restores the deck. */
  lemma {:induction false} TripleCutAtInvolution(d: seq<Card>, i0: nat, i1: nat)
    requires |d| == DeckSize && i0 < i1 < DeckSize
    ensures TripleCutAt(TripleCutAt(d, i0, i1), DeckSize - 1 - i1, DeckSize - 1 - i0) == d
  {
    var s := TripleCutAt(TripleCutAt(d, i0, i1), DeckSize - 1 - i1, DeckSize - 1 - i0);
    forall j | 0 <= j < DeckSize ensures s[j] == d[j] {
      var k := TripleCutSource(DeckSize - 1 - i1, DeckSize - 1 - i0, j);
      assert TripleCutSource(i0, i1, k) == j;
    }
  }

  /** `triple_cut(card0, card1)`: locate both cards, in either order, and cut. */
  function TripleCutCards(d: seq<Card>, card0: Card, card1: Card): (r: seq<Card>)
    requires |d| == DeckSize && card0 != card1 && card0 in d && card1 in d
    ensures |r| == DeckSize && multiset(r) == multiset(d)
  {
    var i0, i1 := IndexOf(d, card0), IndexOf(d, card1);
    if i0 > i1 then TripleCutAt(d, i1, i0) else TripleCutAt(d, i0, i1)
  }

  /** The order in which the two cards are named does not matter. */
  lemma TripleCutSymmetric(d: seq<Card>, a: Card, b: Card)
    requires |d| == DeckSize && a != b && a in d && b in d
    ensures TripleCutCards(d, a, b) == TripleCutCards(d, b, a)
  {
  }

  /** The involution, when the first card named is the higher one. */
  lemma {:induction false} TripleCutCardsInvolutionOrdered(d: seq<Card>, a: Card, b: Card)
    requires |d| == DeckSize && Distinct(d) && a != b && a in d && b in d
    requires IndexOf(d, a) < IndexOf(d, b)
    ensures TripleCutCards(TripleCutCards(d, a, b), a, b) == d
  {
    var i0, i1 := IndexOf(d, a), IndexOf(d, b);
    var r := TripleCutAt(d, i0, i1);
    assert TripleCutCards(d, a, b) == r;
    assert r[DeckSize - 1 - i1] == a && r[DeckSize - 1 - i0] == b;
    assert a in r && b in r;
    DistinctPermuted(d, r);
    IndexOfDistinct(r, DeckSize - 1 - i1);
    IndexOfDistinct(r, DeckSize - 1 - i0);
    assert TripleCutCards(r, a, b) == TripleCutAt(r, DeckSize - 1 - i1, DeckSize - 1 - i0);
    TripleCutAtInvolution(d, i0, i1);
  }

  /**
   * On a deck without repetition, a second triple cut around the same two
   * cards undoes the first.
   */
  lemma {:induction false} TripleCutCardsInvolution(d: seq<Card>, a: Card, b: Card)
    requires |d| == DeckSize && Distinct(d) && a != b && a in d && b in d
    ensures TripleCutCards(TripleCutCards(d, a, b), a, b) == d
  {
    if IndexOf(d, a) < IndexOf(d, b) {
      TripleCutCardsInvolutionOrdered(d, a, b);
    } else {
      TripleCutCardsInvolutionOrdered(d, b, a);
      var r := TripleCutCards(d, a, b);
      assert r == TripleCutCards(d, b, a);
      assert TripleCutCards(r, a, b) == TripleCutCards(r, b, a);
    }
  }

  // ----------------------------------------------------------- count cut

  /**
   * The index of the card that `count_cut` with count `k` moves to index
   * `j`: the cards from `k` to just above the bottom, then the top `k`
   * cards, then the bottom card.
   */
  function CountCutSource(k: nat, j: nat): (i: nat)
    requires k <= DeckSize - 1 && j < DeckSize
    ensures i < DeckSize
  {
    var len := DeckSize - 1 - k;
    if j < len then k + j
    else if j < DeckSize - 1 then j - len
    else DeckSize - 1
  }

  /** `count_cut` with count `k`, slot by slot. */
  function CountCutBy(d: seq<Card>, k: nat): (r: seq<Card>)
    requires |d| == DeckSize && k <= DeckSize - 1
    ensures |r| == DeckSize && multiset(r) == multiset(d)
  {
    var r := seq(DeckSize, j requires 0 <= j < DeckSize => d[CountCutSource(k, j)]);
    CountCutSlices(d, k, r);
    r
  }

  /**
   * The slices `count_cut` copies: the cards from `k` up to the bottom one,
   * the top `k` cards, and the bottom card itself.
   */
  lemma {:induction false} CountCutSlices(d: seq<Card>, k: nat, r: seq<Card>)
    requires |d| == DeckSize && k <= DeckSize - 1 && |r| == DeckSize
    requires forall j :: 0 <= j < DeckSize ==> r[j] == d[CountCutSource(k, j)]
    ensures r == d[k..DeckSize - 1] + d[..k] + [d[DeckSize - 1]]
    ensures multiset(r) == multiset(d)
  {
    var len := DeckSize - 1 - k;
    var s := d[k..DeckSize - 1] + d[..k] + [d[DeckSize - 1]];
    assert |s| == DeckSize;
    forall j | 0 <= j < DeckSize ensures r[j] == s[j] {
      if j < len {
        assert s[j] == d[k..DeckSize - 1][j];
      } else if j < DeckSize - 1 {
        assert s[j] == d[..k][j - len];
      }
    }
    assert r == s;
    assert d == d[..k] + d[k..DeckSize - 1] + [d[DeckSize - 1]];
  }

  /** Above the fixed bottom card, a count cut rotates the deck by `k`. */
  lemma {:induction false} CountCutRotates(d: seq<Card>, k: nat)
    requires |d| == DeckSize && k <= DeckSize - 1
    ensures CountCutBy(d, k)[DeckSize - 1] == d[DeckSize - 1]
    ensures forall j :: 0 <= j < DeckSize - 1 ==> CountCutBy(d, k)[j] == d[(j + k) % 53]
  {
    var r := CountCutBy(d, k);
    forall j | 0 <= j < DeckSize - 1 ensures r[j] == d[(j + k) % 53] {
      if j + k < DeckSize - 1 {
        assert (j + k) % 53 == j + k;
      } else {
        assert (j + k) % 53 == j + k - (DeckSize - 1);
      }
    }
  }

  /** `count_cut`: the count is the value of the bottom card. */
  function CountCutDeck(d: seq<Card>): (r: seq<Card>)
    requires |d| == DeckSize && ValidCard(d[DeckSize - 1])
    ensures |r| == DeckSize && multiset(r) == multiset(d)
  {
    CountCutBy(d, Value(d[DeckSize - 1]))
  }

  /** The bottom card stays put, and a joker at the bottom makes it a no-op. */
  lemma {:induction false} CountCutDeckBottom(d: seq<Card>)
    requires |d| == DeckSize && ValidCard(d[DeckSize - 1])
    ensures CountCutDeck(d)[DeckSize - 1] == d[DeckSize - 1]
    ensures d[DeckSize - 1].suit == Joker ==> CountCutDeck(d) == d
  {
    var r := CountCutDeck(d);
    if d[DeckSize - 1].suit == Joker {
      forall j | 0 <= j < DeckSize ensures r[j] == d[j] {
        assert CountCutSource(DeckSize - 1, j) == j;
      }
    }
  }

  // -------------------------------------------------------------- output

  /**
   * `output`: count down from the top by the top card's value; the card
   * found there is the output unless it is a joker.
   */
  function OutputCard(d: seq<Card>): (r: Option<Card>)
    requires |d| == DeckSize && ValidCard(d[0])
    ensures r.Some? ==> r.value == d[Value(d[0])] && r.value.suit != Joker
    ensures r.None? ==> d[Value(d[0])].suit == Joker
  {
    var k := Value(d[0]);
    if d[k].suit == Joker then None else Some(d[k])
  }

  /** `output` fails exactly at a joker, and otherwise yields a suited card. */
  lemma {:induction false} OutputCardSpec(d: seq<Card>)
    requires Playable(d)
    ensures OutputCard(d).None? <==> d[Value(d[0])].suit == Joker
    ensures OutputCard(d).Some? ==> OutputCard(d).value == d[Value(d[0])]
    ensures OutputCard(d).Some? ==>
      && ValidCard(OutputCard(d).value) && Encodable(OutputCard(d).value)
      && 1 <= CardToByte(OutputCard(d).value) <= DeckSize - 2
  {
  }

  // ---------------------------------------------------------------- Deck

  /** `Deck<Card>`: the array the Solitaire operations rewrite. */
  class Deck {
    var cards: array<Card>

    /** Every deck holds the 54 cards, each once. */
    ghost predicate Valid()
      reads this, cards
    {
      cards.Length == DeckSize && IsDeck(cards[..])
    }

    /** `new_unshuffled`: the sorted deck, filled suit by suit. */
    constructor NewUnshuffled()
      ensures Valid()
      ensures cards[..] == SortedDeck()
      ensures fresh(cards)
    {
      var d := new Card[DeckSize](_ => DefaultCard());
      var idx := 0;
      var suits := [Club, Diamond, Heart, Spade];
      for s := 0 to 4
        invariant idx == s * 13
        invariant forall j :: 0 <= j < idx ==> Numbered(d[j], j + 1)
      {
        var suit := suits[s];
        assert SuitIndex(suit) == s && suit != Joker;
        for n := 1 to 11
          invariant idx == s * 13 + n - 1
          invariant forall j :: 0 <= j < idx ==> Numbered(d[j], j + 1)
        {
          d[idx] := Card(suit, Number(n));
          idx := idx + 1;
        }
        d[idx] := Card(suit, Jack);
        idx := idx + 1;
        d[idx] := Card(suit, Queen);
        idx := idx + 1;
        d[idx] := Card(suit, King);
        idx := idx + 1;
      }
      d[idx] := JokerA();
      idx := idx + 1;
      d[idx] := JokerB();
      NumberedIsSorted(d[..]);
      cards := d;
    }

    /** `find`: the first index holding `card`; a missing card is a panic. */
    method Find(card: Card) returns (idx: nat)
      requires Valid() && card in cards[..]
      ensures idx < DeckSize && cards[idx] == card
      ensures forall j :: 0 <= j < idx ==> cards[j] != card
      ensures idx == IndexOf(cards[..], card)
    {
      idx := 0;
      while idx < DeckSize
        invariant idx <= DeckSize
        invariant forall j :: 0 <= j < idx ==> cards[j] != card
      {
        if cards[idx] == card {
          IndexOfFirst(cards[..], card, idx);
          return;
        }
        idx := idx + 1;
      }
      assert false;
    }

    /** `push`: move `card` down by `n`, wrapping below the top card. */
    method Push(card: Card, n: nat)
      requires Valid() && card in cards[..]
      modifies this
      ensures Valid()
      ensures cards[..] == PushCard(old(cards[..]), card, n)
    {
      var idx := Find(card);
      var next := PushCopy(cards, idx, n);
      PermutedDeck(old(cards[..]), next[..]);
      cards := next;
    }

    /** `triple_cut`: swap the blocks outside the two given cards. */
    method TripleCut(card0: Card, card1: Card)
      requires Valid() && card0 != card1 && card0 in cards[..] && card1 in cards[..]
      modifies this
      ensures Valid()
      ensures cards[..] == TripleCutCards(old(cards[..]), card0, card1)
    {
      var idx0 := Find(card0);
      var idx1 := Find(card1);
      if idx0 > idx1 {
        idx0, idx1 := idx1, idx0;
      }
      var next := TripleCutCopy(cards, idx0, idx1);
      PermutedDeck(old(cards[..]), next[..]);
      cards := next;
    }

    /** `count_cut`: cut by the bottom card's value, keeping it at the bottom. */
    method CountCut()
      requires Valid()
      modifies this
      ensures Valid()
      ensures cards[..] == CountCutDeck(old(cards[..]))
    {
      var idx := Value(cards[DeckSize - 1]);
      var next := CountCutCopy(cards, idx);
      PermutedDeck(old(cards[..]), next[..]);
      cards := next;
    }

    /** `output`: the card the top card's value points at, unless a joker. */
    method Output() returns (r: Option<Card>)
      requires Valid()
      ensures r == OutputCard(cards[..])
    {
      var idx := Value(cards[0]);
      if cards[idx].suit == Joker {
        r := None;
      } else {
        r := Some(cards[idx]);
      }
    }
  }

  /** The card `c` is a valid card numbered `v`. */
  predicate Numbered(c: Card, v: int)
  {
    ValidCard(c) && Encodable(c) && CardToByte(c) == v
  }

  /**
   * Cards numbered 1, 2, ..., 54 in order form the sorted deck, which is a
   * deck; this is the order `new_unshuffled` checks in debug builds.
   */
  lemma {:induction false} NumberedIsSorted(d: seq<Card>)
    requires |d| == DeckSize
    requires forall j :: 0 <= j < DeckSize ==> Numbered(d[j], j + 1)
    ensures d == SortedDeck() && IsDeck(d)
  {
    var sorted := SortedDeck();
    forall j | 0 <= j < DeckSize ensures d[j] == sorted[j] {
      EncodeInjective(d[j], sorted[j]);
    }
  }

  /**
   * The array `push` builds from `prev`: a clone, with the cards between the
   * pushed card and its destination shifted one slot and the pushed card
   * written at its destination.
   */
  method PushCopy(prev: array<Card>, idx: nat, n: nat) returns (next: array<Card>)
    requires prev.Length == DeckSize && idx < DeckSize
    ensures fresh(next) && next[..] == PushAt(prev[..], idx, n)
  {
    var m := n % 54;
    next := new Card[DeckSize](i requires 0 <= i < DeckSize reads prev => prev[i]);
    if idx + m >= DeckSize {
      var dest := (idx + m) % 53;
      assert dest == Dest(idx, n) && dest <= idx;
      next[dest] := prev[idx];
      forall i | dest + 1 <= i <= idx {
        next[i] := prev[i - 1];
      }
    } else {
      forall i | idx <= i < idx + m {
        next[i] := prev[i + 1];
      }
      next[idx + m] := prev[idx];
    }
    forall j | 0 <= j < DeckSize ensures next[j] == PushAt(prev[..], idx, n)[j] {
    }
  }

  /**
   * The array `triple_cut` builds from `prev` with the two cards at
   * `idx0 < idx1`: three slice copies into a fresh array.
   */
  method TripleCutCopy(prev: array<Card>, idx0: nat, idx1: nat) returns (next: array<Card>)
    requires prev.Length == DeckSize && idx0 < idx1 < DeckSize
    ensures fresh(next) && next[..] == TripleCutAt(prev[..], idx0, idx1)
  {
    next := new Card[DeckSize](_ => DefaultCard());
    var newIdx0 := DeckSize - idx1 - 1;
    var newIdx1 := DeckSize - idx0 - 1;
    forall i | 0 <= i < newIdx0 {
      next[i] := prev[idx1 + 1 + i];
    }
    forall i | newIdx0 <= i <= newIdx1 {
      next[i] := prev[idx0 + (i - newIdx0)];
    }
    forall i | newIdx1 + 1 <= i < DeckSize {
      next[i] := prev[i - newIdx1 - 1];
    }
    forall j | 0 <= j < DeckSize ensures next[j] == TripleCutAt(prev[..], idx0, idx1)[j] {
    }
  }

  /**
   * The array `count_cut` builds from `prev` with count `idx`: the cards from
   * `idx` to just above the bottom, then the top `idx` cards, then the bottom
   * card.
   */
  method CountCutCopy(prev: array<Card>, idx: nat) returns (next: array<Card>)
    requires prev.Length == DeckSize && idx <= DeckSize - 1
    ensures fresh(next) && next[..] == CountCutBy(prev[..], idx)
  {
    var rangeBLen := DeckSize - idx - 1;
    next := new Card[DeckSize](_ => DefaultCard());
    forall i | 0 <= i < rangeBLen {
      next[i] := prev[idx + i];
    }
    forall i | rangeBLen <= i < DeckSize - 1 {
      next[i] := prev[i - rangeBLen];
    }
    next[DeckSize - 1] := prev[DeckSize - 1];
    forall j | 0 <= j < DeckSize ensures next[j] == CountCutBy(prev[..], idx)[j] {
    }
  }
}
