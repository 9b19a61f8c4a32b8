# Solitaire keystream, modelled in Dafny

This project models the core of a Rust implementation of Bruce Schneier's
Solitaire (Pontifex) keystream generator.

- **Cards** (`cards.dfy`): the numbering 1..54 of the four suits and the two
  jokers, and its inverse.
- **Deck** (`deck.dfy`): the 54-slot array, its construction in sorted order
  and the primitives `find`, `push`, `triple_cut`, `count_cut` and `output`.
  `Deck` is a class over an `array<Card>`. Each method is proved equal to a
  function on `seq<Card>`, and every primitive is proved to leave a
  permutation of the deck.
- **Keystream** (`solitaire.dfy`): the `next` loop, which runs rounds
  (push Joker A by one, push Joker B by two, triple cut, count cut) until the
  output card is not a joker. `take(n)` is modelled as `n` calls of `next`.
- **Text codec** (`textcodec.dfy`): `textbyte`, `pad`, `restore` and
  `separate`, as functions on finite sequences.
- `prelude.dfy` holds `Byte` (Rust `u8`), `Option` and `Result`.

Where the code and its own comments or the published algorithm differ, the
model follows the code:

- `next` yields the raw number of the output card (`u8::from(card)`), which
  lies in 1..52. It does not reduce that number to 1..26, although
  src/lib.rs:7-8 describes the stream as characters in `'A'..='Z'`.
- `Card::value()`, which the deck code calls, is not defined in the card code.
  `Cards.Value` gives it the Solitaire meaning: the card's number, except that
  both jokers count 53.
- A wrapping `push` lands at `(idx + n % 54) % 53`. That slot is not the top
  unless the bottom card is pushed by 53 (modulo 54), which puts it on top,
  whereas Solitaire's published rule never moves a pushed card to the top.
  `Decks.PushDest` states both cases. A round only pushes by 1 and 2, where
  this cannot happen.

## Model

| member | source | states |
|---|---|---|
| Cards.SuitIndex | src/card.rs:7-15 | the `#[repr(u8)]` discriminant is at most 4, and is 4 exactly for `Joker` |
| Cards.SuitFromByte | src/card.rs:17-33 | succeeds exactly on 1..54; the suit's index is `(v - 1) / 13` |
| Cards.RankFromByte | src/card.rs:72-87 | succeeds exactly on 1..54; the rank is canonical, with value `(v - 1) % 13 + 1` |
| Cards.RankValue | src/card.rs:60-69 | a face is worth 11 to 13, and a rank in the form `try_from` produces is worth at most 13 |
| Cards.DefaultCard | src/card.rs:119-126 | the default card is the valid card numbered 1 |
| Cards.JokerA | src/card.rs:133-138 | Joker A is a valid joker numbered 53 |
| Cards.JokerB | src/card.rs:140-145 | Joker B is a valid joker numbered 54 |
| Cards.RankValueInjective | src/card.rs:60-69 | two canonical ranks with the same `value()` are equal, so `value` inverts `try_from` |
| Cards.CardToByte | src/card.rs:156-161 | a valid card encodes into 1..54, and above 52 exactly when it is a joker |
| Cards.CardFromByte | src/card.rs:163-170 | succeeds exactly on 1..54, with a valid card that is a joker exactly for 53 and 54; 0 and 55 fail |
| Cards.EncodeDecode | src/card.rs:176-184 | for every v in 1..54, decoding succeeds and encoding the card gives v back |
| Cards.DecodeEncode | src/card.rs:163-170 | every valid card encodes without overflow and decodes back to itself |
| Cards.EncodeInjective | src/card.rs:156-161 | distinct valid cards have distinct numbers |
| Cards.JokerNumbers | src/card.rs:193-202 | Joker A is 53 and Joker B is 54, and both decode back to themselves |
| Cards.Value | src/deck.rs:53-55 | the count of a card lies in 1..53; it is 53 exactly for a joker and the card's number otherwise |
| Decks.SortedDeck | src/deck.rs:8-37 | 54 slots, slot i holding the valid card numbered i + 1 |
| Decks.SortedDeckCards | src/deck.rs:8-37 | the sorted deck holds exactly the valid cards, each at index number - 1 |
| Decks.SortedDeckDistinct | src/deck.rs:29-34 | no card occurs twice in the sorted deck |
| Decks.PermutedDeck | src/deck.rs:4 | any 54-card rearrangement of a deck is a deck |
| Decks.DeckFacts | src/deck.rs:4 | a deck has no repeated card and holds both jokers, so it is playable |
| Decks.PermutedPlayable | src/lib.rs:24-32 | any rearrangement of a playable deck is playable |
| Decks.IndexOf | src/deck.rs:67-74 | for a present card, an index in range holding that card |
| Decks.IndexOfFirst | src/deck.rs:67-74 | `find` returns i exactly when slot i holds the card and no earlier slot does |
| Decks.IndexOfDistinct | src/deck.rs:67-74 | in a deck without repetition, the card at i is found at i |
| Decks.Dest | src/deck.rs:78-90 | from a slot of the deck, `dest_idx` is a slot of the deck, and with wrap-around it is at most the old index |
| Decks.PushAt | src/deck.rs:77-92 | `push` is a permutation of the 54 cards that puts the pushed card at its destination |
| Decks.PushSlices | src/deck.rs:80-91 | the result, slice by slice, in both cases: without wrap the cards between move up one; with wrap the card lands at `(idx + n) % 53` and the cards from there move down one; nothing else moves |
| Decks.PushDest | src/deck.rs:78-90 | the destination is in range: `idx + n` without wrap, at most `idx` with wrap; it is the top only from the top with n = 0, or from the bottom with n = 53 (mod 54) |
| Decks.PushCard | src/deck.rs:77-92 | find, then push: a permutation with the card at its destination |
| Decks.PushTwice | src/deck.rs:76-92 | pushing the card at idx by two equals pushing it by one twice |
| Decks.PushCardTwice | src/deck.rs:76-92 | on a deck without repetition, `push(c, 2)` equals `push(c, 1)` applied twice |
| Decks.TripleCutAt | src/deck.rs:123-134 | a permutation that moves the two cards to `53 - i1` and `53 - i0` |
| Decks.TripleCutSlices | src/deck.rs:131-133 | the result is `d[i1 + 1..] + d[i0..i1 + 1] + d[..i0]` |
| Decks.TripleCutAtInvolution | src/deck.rs:124-133 | cutting again at the moved pair restores the deck |
| Decks.TripleCutCards | src/deck.rs:112-135 | with two distinct present cards, a permutation of the deck |
| Decks.TripleCutSymmetric | src/deck.rs:108-121 | the order in which the two cards are named does not matter |
| Decks.TripleCutCardsInvolution | src/deck.rs:112-134 | on a deck without repetition, a second triple cut around the same cards undoes the first |
| Decks.CountCutBy | src/deck.rs:41-49 | a count cut is a permutation of the deck |
| Decks.CountCutSlices | src/deck.rs:43-47 | the result is `d[k..53] + d[..k] + [d[53]]` |
| Decks.CountCutRotates | src/deck.rs:41-49 | the bottom card stays, and slot j above it holds `d[(j + k) % 53]` |
| Decks.CountCutDeck | src/deck.rs:41-49 | `count_cut` by the bottom card's value is a permutation |
| Decks.CountCutDeckBottom | src/deck.rs:42-47 | the bottom card stays put, and a joker at the bottom (count 53) leaves the deck unchanged |
| Decks.OutputCard | src/deck.rs:52-60 | `output` yields the card at the top card's count when it is suited, and nothing when a joker sits there |
| Decks.OutputCardSpec | src/deck.rs:52-60 | `output` is None exactly when a joker sits at the top card's count; otherwise it is that card, which is suited and numbered 1..52 |
| Decks.Deck.NewUnshuffled | src/deck.rs:8-37 | the nested fill loops produce the sorted deck, which is a valid deck |
| Decks.Deck.Find | src/deck.rs:67-74 | the loop returns the first index holding the card |
| Decks.Deck.Push | src/deck.rs:77-92 | the new array is `PushCard` of the old contents, and the deck stays valid |
| Decks.Deck.TripleCut | src/deck.rs:112-135 | the new array is `TripleCutCards` of the old contents, and the deck stays valid |
| Decks.Deck.CountCut | src/deck.rs:41-49 | the new array is `CountCutDeck` of the old contents, and the deck stays valid |
| Decks.Deck.Output | src/deck.rs:52-60 | returns `OutputCard` of the contents and changes nothing |
| Decks.NumberedIsSorted | src/deck.rs:29-34 | cards numbered 1, 2, ..., 54 in order are exactly the sorted deck |
| Decks.PushCopy | src/deck.rs:78-91 | the clone-and-shift copies build `PushAt` of the old array |
| Decks.TripleCutCopy | src/deck.rs:123-134 | the three slice copies build `TripleCutAt` of the old array |
| Decks.CountCutCopy | src/deck.rs:42-48 | the slice copies and the kept bottom card build `CountCutBy` of the old array |
| Solitaire.Round | src/lib.rs:26-30 | a round leaves a playable permutation of the deck |
| Solitaire.RoundSteps | src/lib.rs:26-30 | a round is push A by 1, push B by 2, triple cut around the jokers, then count cut, in that order |
| Solitaire.Rounds | src/lib.rs:26-32 | any number of rounds leaves a playable permutation of the deck |
| Solitaire.NextOutput | src/lib.rs:23-34 | `next` leaves a permutation of the deck and yields only numbers in 1..52 |
| Solitaire.NextOutputRounds | src/lib.rs:25-33 | `next` runs exactly the rounds up to the first whose output is not a joker; it yields that card's number, and nothing only when the fuel ran out |
| Solitaire.NextOutputFuel | src/lib.rs:26-32 | once `next` yields within some fuel, more fuel changes neither the value nor the deck |
| Solitaire.TakeFrom | src/lib.rs:44-46 | `take(n)` yields at most n values, each in 1..52, and leaves a permutation of the deck |
| Solitaire.TakePrefix | src/lib.rs:41-64 | taking fewer values gives a prefix of taking more, as the 8- and 9-value tests assume |
| Solitaire.Keystream.constructor | src/lib.rs:11-19 | a keystream owns the given deck |
| Solitaire.Keystream.Next | src/lib.rs:23-34 | the loop yields the value and leaves the deck that `NextOutput` gives |
| Solitaire.Keystream.RunRound | src/lib.rs:27-30 | the four steps on the array give `Round` of the old deck |
| Solitaire.Keystream.Take | src/lib.rs:44-46 | repeated `next` yields and leaves what `TakeFrom` gives |
| TextCodec.ToAsciiUppercase | src/textbyte.rs:10 | the result is a capital letter exactly for ASCII letters; lower case has 32 subtracted from its code point, all else stays |
| TextCodec.IsAsciiAlphabetic | src/textbyte.rs:9 | only ASCII characters (code points below 128) are letters |
| TextCodec.LetterValue | src/textbyte.rs:10 | a letter's number lies in 1..26 |
| TextCodec.LetterValueCases | src/textbyte.rs:3-10 | a letter has number k exactly when it is the k-th capital or the k-th small letter |
| TextCodec.TextBytes | src/textbyte.rs:7-11 | at most one number per character, each in 1..26 |
| TextCodec.TextBytesAppend | src/textbyte.rs:8-10 | `textbyte` of a concatenation is the concatenation of the results |
| TextCodec.TextBytesLength | src/textbyte.rs:8-9 | `textbyte` yields exactly one number per ASCII letter |
| TextCodec.TextBytesExamples | src/textbyte.rs:142-145 | "abc" gives [1, 2, 3] and "xyz" gives [24, 25, 26] |
| TextCodec.TextBytesSpaceExample | src/textbyte.rs:146 | "abc def" gives [1, 2, 3, 4, 5, 6] |
| TextCodec.TextBytesStopExample | src/textbyte.rs:147 | "xyz.fed" gives [24, 25, 26, 6, 5, 4] |
| TextCodec.Letters | src/textbyte.rs:5-6 | the upper-cased letters of a text are all capitals |
| TextCodec.PadCount | src/textbyte.rs:41-45 | fewer copies than the group size; indices `n .. n + k` pass the `take_while`, and `n + k` stops it |
| TextCodec.Pad | src/textbyte.rs:34-52 | the input unchanged, then only copies of `padding`, at indices that are not multiples of the group size, ending at a multiple |
| TextCodec.Repeat | src/textbyte.rs:39 | n copies of the padding |
| TextCodec.PadLength | src/textbyte.rs:18-22 | the padded length is the least multiple of the group size that holds the input; the empty input stays empty |
| TextCodec.PadAligned | src/textbyte.rs:18-22 | an input whose length is a multiple of the group size is returned unchanged |
| TextCodec.PadIdempotent | src/textbyte.rs:18-22 | padding twice equals padding once |
| TextCodec.PadOneExample | src/textbyte.rs:174 | "a" gives [1, 24, 24, 24, 24] |
| TextCodec.PadAlignedExamples | src/textbyte.rs:172-180 | "abcde" gives [1, 2, 3, 4, 5]; "." and "" give [] |
| TextCodec.PadSixExample | src/textbyte.rs:177 | "abcdef" gives [1, 2, 3, 4, 5, 6, 24, 24, 24, 24] |
| TextCodec.PadStopsExample | src/textbyte.rs:178 | "a.b.c.d" gives [1, 2, 3, 4, 24] |
| TextCodec.RestoreByte | src/textbyte.rs:74 | a number from 1 on restores to a capital letter |
| TextCodec.Restore | src/textbyte.rs:70-76 | one capital letter per number |
| TextCodec.RestorePeriodic | src/textbyte.rs:74 | b and b + 26 restore to the same letter |
| TextCodec.RestoreLetter | src/textbyte.rs:74 | restoring a letter's number gives the letter in upper case |
| TextCodec.LetterRestore | src/textbyte.rs:57-59 | for b in 1..26, the restored letter has number b |
| TextCodec.RestoreTextBytes | src/textbyte.rs:3-11 | `restore(textbyte(s))` is the ASCII letters of s, upper-cased |
| TextCodec.Chunks | src/textbyte.rs:100 | non-empty groups of at most the group size, all full except the last; none for the empty input |
| TextCodec.FlattenChunks | src/textbyte.rs:98-110 | the groups hold the input, in order |
| TextCodec.Interleave | src/textbyte.rs:106-110 | a non-empty interleaving ends with a separator |
| TextCodec.InterleaveJoin | src/textbyte.rs:106-110 | the interleaving is the join plus one trailing separator |
| TextCodec.Separate | src/textbyte.rs:96-123 | `separate` is the groups joined by single separators with none trailing, and the empty input gives the empty output |
| TextCodec.JoinLength | src/textbyte.rs:84-87 | a join adds one separator fewer than there are groups |
| TextCodec.ChunkCount | src/textbyte.rs:100 | the number of groups is the least that holds the input |
| TextCodec.SeparateLength | src/textbyte.rs:96-123 | the output is the input plus one separator per group after the first |

## Left out

- `src/main.rs`: argument parsing, printing and error plumbing. `Deck::new`, `MaybeDeck::check`, `Deck::from_passphrase`, `encrypt`, `decrypt` and `to_ascii_string` are not part of this model.
- `Deck::shuffle` (src/deck.rs:95-102): it draws from a random number generator.
- The `Display` implementations of suits, ranks and cards: formatting only.
- The `dbg!` calls: debugging output only.
- The `small-deck-tests` feature: the deck size is fixed at 54.
- `Deck<T>` for element types other than `Card`: the deck is modelled over `Card`, the only element type the keystream uses.
- Laziness, `fuse` and boxed iterators: each iterator is a function on finite sequences, and the endless keystream is modelled through single `next` calls and a bounded `take`.
- Solitaire.NextOutput: nothing bounds the number of rounds one `next` may need, so it carries a `fuel` budget of rounds and yields `None` when the budget runs out, which the source never does. `NextOutputFuel` shows that more fuel changes no value once one is found.
- Solitaire.Keystream.Next: the same `fuel` budget as `NextOutput`.
- Solitaire.TakeFrom: stops early only when a `next` runs out of fuel, which the source never does.
- The test vectors of `src/lib.rs:41-64`, which expect the first eight outputs from the sorted deck to be [4, 49, 10, 24, 8, 51, 44, 6] and the ninth not to be 33: not proved, because the verifier would have to evaluate nine and ten rounds (one of them ending on a joker) on a concrete 54-card deck.
- Decks.IndexOf, Decks.PushCard, Decks.TripleCutCards, Decks.Deck.Find, Decks.Deck.Push and Decks.Deck.TripleCut: require the card to be in the deck. `find` panics with `unreachable!` on a missing card (src/deck.rs:73); the panic is not modelled. A deck always holds both jokers, so no round reaches it.
- Decks.TripleCutCards and Decks.Deck.TripleCut: require two different cards. `triple_cut` panics in `assert_ne!` on equal cards (src/deck.rs:113); the panic is not modelled. A round always cuts around the two different jokers.
- Cards.CardToByte: requires `Encodable`, so that `13 * suit + value` fits in a `u8`. A card built with `Card::new` from an out-of-range rank, such as `Card::new(Joker, Number(204))`, overflows in the source (src/card.rs:159), which panics in a debug build and wraps in a release build; neither is modelled. Every card in a deck encodes without overflow.
- TextCodec.RestoreByte: requires b >= 1. The source computes `b - 1` in `u8`, which panics on 0 in a debug build and wraps to 255 (giving 'V') in a release build; neither is modelled.
- TextCodec.Pad: requires a group size above 0, since `idx % 0` panics in the source.
- TextCodec.Chunks: requires a group size above 0, since `chunks(0)` panics in the source.
- TextCodec.Restore: requires every number to be at least 1, for the same reason as `RestoreByte`.
- TextCodec.PadCount: requires a group size above 0, for the same reason as `Pad`.
- TextCodec.Separate: requires a group size above 0, for the same reason as `Chunks`.
- Unicode: a `char` is a Unicode scalar value. Only ASCII letters count as letters, as in `is_ascii_alphabetic`.
