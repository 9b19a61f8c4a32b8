/**
 * The Solitaire keystream (src/lib.rs).
 *
 * A keystream owns a deck. Each call of `next` runs rounds (push Joker A
 * down one, push Joker B down two, triple cut around the jokers, count cut)
 * until the output card is not a joker, and yields that card's number.
 *
 * Nothing bounds the number of rounds one call may need, so `next` and
 * `take` here carry a `fuel` budget of rounds per call; a call that runs out
 * of fuel yields `None`, which the source never does.
 */
module Solitaire {
  import opened Prelude
  import opened Cards
  import opened Decks

  /** One round of the loop body in `next`, in the source's order (`RoundSteps`). */
  function Round(d: seq<Card>): (r: seq<Card>)
    requires Playable(d)
    ensures Playable(r) && multiset(r) == multiset(d)
    decreases 0, 2
  {
    // `NextOutput(d, 0).1` is `d` itself. Naming it here puts `Round` in
    // `NextOutput`'s recursive group, so a round is unfolded only on request.
    var d := NextOutput(d, 0).1;
    var d1 := PushCard(d, JokerA(), 1);
    PermutedPlayable(d, d1);
    var d2 := PushCard(d1, JokerB(), 2);
    PermutedPlayable(d1, d2);
    var d3 := TripleCutCards(d2, JokerA(), JokerB());
    PermutedPlayable(d2, d3);
    var r := CountCutDeck(d3);
    PermutedPlayable(d3, r);
    r
  }

  /** `k` rounds in a row: one round, then `k - 1` more. */
  function Rounds(d: seq<Card>, k: nat): (r: seq<Card>)
    requires Playable(d)
    ensures Playable(r) && multiset(r) == multiset(d)
    decreases k
  {
    if k == 0 then d else Rounds(Round(d), k - 1)
  }

  /**
   * `n - 1`, the budget left after one step. The recursions below and the
   * loops that follow them count down through this one function, so that
   * the verifier sees the loop counter and the recursive argument as the
   * same term.
   */
  function Less(n: nat): (m: nat)
    requires n > 0
    ensures m < n
  {
    n - 1
  }

  /**
   * `next` with at most `fuel` rounds: the value yielded, `None` only when
   * the fuel ran out, and the deck afterwards.
   */
  function NextOutput(d: seq<Card>, fuel: nat): (r: (Option<Byte>, seq<Card>))
    requires Playable(d)
    ensures Playable(r.1) && multiset(r.1) == multiset(d)
    ensures r.0.Some? ==> 1 <= r.0.value <= DeckSize - 2
    decreases fuel, 1
  {
    if fuel == 0 then (None, d)
    else
      var e := Round(d);
      OutputCardSpec(e);
      match OutputCard(e)
      case Some(c) => (Some(CardToByte(c)), e)
      case None => NextOutput(e, Less(fuel))
  }

  /** A round pushes Joker A down one, Joker B down two, then cuts twice. */
  lemma RoundSteps(d: seq<Card>) returns (d1: seq<Card>, d2: seq<Card>, d3: seq<Card>)
    requires Playable(d)
    ensures Playable(d1) && d1 == PushCard(d, JokerA(), 1)
    ensures Playable(d2) && d2 == PushCard(d1, JokerB(), 2)
    ensures Playable(d3) && d3 == TripleCutCards(d2, JokerA(), JokerB())
    ensures Round(d) == CountCutDeck(d3)
  {
    d1 := PushCard(d, JokerA(), 1);
    PermutedPlayable(d, d1);
    d2 := PushCard(d1, JokerB(), 2);
    PermutedPlayable(d1, d2);
    d3 := TripleCutCards(d2, JokerA(), JokerB());
    PermutedPlayable(d2, d3);
  }

  /**
   * The rounds after a first round are the rounds from `d`, one later.
   * Returning `k + 1` as `k1` lets callers name that count as a term.
   */
  lemma RoundsAfterRound(d: seq<Card>, k: nat) returns (k1: nat)
    requires Playable(d)
    ensures k1 == k + 1 && Rounds(Round(d), k) == Rounds(d, k1)
  {
    k1 := k + 1;
  }

  /** No output in the rounds from `Round(d)` is no output in the rounds from `d` after the first. */
  lemma {:induction false} JokersAfterRound(d: seq<Card>, k: nat)
    requires Playable(d) && OutputCard(Rounds(d, 1)).None?
    requires forall j :: 1 <= j < k ==> OutputCard(Rounds(Round(d), j)).None?
    ensures forall j :: 1 <= j < k + 1 ==> OutputCard(Rounds(d, j)).None?
  {
    forall j | 1 < j < k + 1 ensures OutputCard(Rounds(d, j)).None? {
      var j1 := RoundsAfterRound(d, j - 1);
      assert Rounds(d, j) == Rounds(Round(d), j - 1);
    }
  }

  /**
   * What `next` does, round by round: it runs `k` rounds, where the output
   * after round `k` is the first one that is not a joker, and yields that
   * card's number; if every round the fuel allows ends on a joker, it yields
   * nothing after `fuel` rounds.
   */
  lemma {:induction false} NextOutputRounds(d: seq<Card>, fuel: nat) returns (k: nat)
    requires Playable(d)
    ensures k <= fuel && NextOutput(d, fuel).1 == Rounds(d, k)
    ensures forall j :: 1 <= j < k ==> OutputCard(Rounds(d, j)).None?
    ensures NextOutput(d, fuel).0.Some? <==> 1 <= k && OutputCard(Rounds(d, k)).Some?
    ensures NextOutput(d, fuel).0.Some? ==>
      && Encodable(OutputCard(Rounds(d, k)).value)
      && NextOutput(d, fuel).0.value == CardToByte(OutputCard(Rounds(d, k)).value)
    ensures NextOutput(d, fuel).0.None? ==> k == fuel
    decreases fuel
  {
    if fuel == 0 {
      k := 0;
    } else {
      var e := Round(d);
      OutputCardSpec(e);
      assert Rounds(d, 1) == e;
      if OutputCard(e).Some? {
        k := 1;
      } else {
        var k' := NextOutputRounds(e, Less(fuel));
        k := RoundsAfterRound(d, k');
        JokersAfterRound(d, k');
      }
    }
  }

  /** Once `next` yields within some fuel, more fuel changes nothing. */
  lemma {:induction false} NextOutputFuel(d: seq<Card>, f: nat, g: nat)
    requires Playable(d) && f <= g
    requires NextOutput(d, f).0.Some?
    ensures NextOutput(d, g) == NextOutput(d, f)
    decreases f
  {
    var e := Round(d);
    if OutputCard(e).None? {
      NextOutputFuel(e, Less(f), Less(g));
    }
  }

  /**
   * `take(n)` with `fuel` rounds per `next`: up to `n` values, stopping early
   * only if a `next` runs out of fuel, and the deck afterwards.
   */
  function TakeFrom(d: seq<Card>, n: nat, fuel: nat): (r: (seq<Byte>, seq<Card>))
    requires Playable(d)
    ensures Playable(r.1) && multiset(r.1) == multiset(d) && |r.0| <= n
    ensures forall i :: 0 <= i < |r.0| ==> 1 <= r.0[i] <= DeckSize - 2
    decreases n
  {
    if n == 0 then ([], d)
    else
      var step := NextOutput(d, fuel);
      match step.0
      case None => ([], step.1)
      case Some(x) =>
        var rest := TakeFrom(step.1, Less(n), fuel);
        ([x] + rest.0, rest.1)
  }

  /** Taking fewer values yields a prefix of what taking more yields. */
  lemma {:induction false} TakePrefix(d: seq<Card>, m: nat, n: nat, fuel: nat)
    requires Playable(d) && m <= n
    ensures TakeFrom(d, m, fuel).0 <= TakeFrom(d, n, fuel).0
    decreases m
  {
    if m > 0 {
      var step := NextOutput(d, fuel);
      if step.0.Some? {
        TakePrefix(step.1, Less(m), Less(n), fuel);
      }
    }
  }

  /** `Keystream`: owns the deck that each `next` advances. */
  class Keystream {
    const deck: Deck

    /** A deck, which is playable (`DeckFacts` shows the second follows). */
    ghost predicate Valid()
      reads this, deck, deck.cards
    {
      deck.Valid() && Playable(deck.cards[..])
    }

    /** `From<Deck> for Keystream` and `keystream(deck)`. */
    constructor (deck: Deck)
      requires deck.Valid()
      ensures this.deck == deck && Valid()
    {
      this.deck := deck;
      DeckFacts(deck.cards[..]);
    }

    /** `Iterator::next`, with at most `fuel` rounds. */
    method Next(fuel: nat) returns (r: Option<Byte>)
      requires Valid()
      modifies deck
      ensures Valid()
      ensures (r, deck.cards[..]) == NextOutput(old(deck.cards[..]), fuel)
    {
      ghost var d0 := deck.cards[..];
      var output: Option<Card> := None;
      var left := fuel;
      while output.None? && left > 0
        invariant Valid()
        invariant output.None? ==> NextOutput(d0, fuel) == NextOutput(deck.cards[..], left)
        invariant output.Some? ==> Encodable(output.value)
        invariant output.Some? ==> NextOutput(d0, fuel) == (Some(CardToByte(output.value)), deck.cards[..])
      {
        RunRound();
        output := deck.Output();
        OutputCardSpec(deck.cards[..]);
        left := Less(left);
      }
      r := if output.Some? then Some(CardToByte(output.value)) else None;
    }

    /** The body of the loop in `next`: one round on the deck. */
    method RunRound()
      requires Valid()
      modifies deck
      ensures Valid() && deck.cards[..] == Round(old(deck.cards[..]))
    {
      ghost var d := deck.cards[..];
      ghost var d1, d2, d3 := RoundSteps(d);
      deck.Push(JokerA(), 1);
      deck.Push(JokerB(), 2);
      deck.TripleCut(JokerA(), JokerB());
      deck.CountCut();
    }

    /** `take(n)` collected: repeated `next`, each with at most `fuel` rounds. */
    method Take(n: nat, fuel: nat) returns (out: seq<Byte>)
      requires Valid()
      modifies deck
      ensures Valid()
      ensures out == TakeFrom(old(deck.cards[..]), n, fuel).0
      ensures deck.cards[..] == TakeFrom(old(deck.cards[..]), n, fuel).1
    {
      ghost var d0 := deck.cards[..];
      out := [];
      var left := n;
      assert TakeFrom(d0, n, fuel) == TakeFrom(deck.cards[..], left, fuel);
      assert out + TakeFrom(d0, n, fuel).0 == TakeFrom(d0, n, fuel).0;
      while left > 0
        invariant Valid()
        invariant TakeFrom(d0, n, fuel).0 == out + TakeFrom(deck.cards[..], left, fuel).0
        invariant TakeFrom(d0, n, fuel).1 == TakeFrom(deck.cards[..], left, fuel).1
      {
        ghost var before := deck.cards[..];
        var r := Next(fuel);
        match r
        case None =>
          assert TakeFrom(before, left, fuel) == ([], deck.cards[..]);
          return;
        case Some(v) =>
          ghost var rest := TakeFrom(deck.cards[..], Less(left), fuel);
          assert TakeFrom(before, left, fuel) == ([v] + rest.0, rest.1);
          out := out + [v];
          left := Less(left);
      }
    }
  }
}
