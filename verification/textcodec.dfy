/**
 * Text to numbers and back (src/textbyte.rs).
 *
 * `textbyte` keeps the ASCII letters of a text and numbers them A = 1 .. Z = 26
 * regardless of case; `pad` fills a stream up to a multiple of the group size;
 * `restore` turns numbers back into capital letters, modulo 26; `separate`
 * cuts a stream into groups and puts one separator between neighbouring
 * groups. The source builds each from iterator adaptors; here each is a
 * function on finite sequences.
 */
module TextCodec {
  import opened Prelude

  // ------------------------------------------------------------ textbyte

  /** `char::is_ascii_alphabetic`. */
  predicate IsAsciiAlphabetic(c: char): (b: bool)
    ensures b ==> c as int < 128
  {
    'A' <= c <= 'Z' || 'a' <= c <= 'z'
  }

  /** `char::to_ascii_uppercase`: lower-case ASCII letters become capitals, the rest stay. */
  function ToAsciiUppercase(c: char): (u: char)
    ensures IsAsciiAlphabetic(c) <==> 'A' <= u <= 'Z'
    ensures 'a' <= c <= 'z' ==> u as int == c as int - 32
    ensures !('a' <= c <= 'z') ==> u == c
  {
    if 'a' <= c <= 'z' then (c as int - 32) as char else c
  }

  /** The number of one letter: `(c.to_ascii_uppercase() as u8) - b'A' + 1`. */
  function LetterValue(c: char): (b: Byte)
    requires IsAsciiAlphabetic(c)
    ensures 1 <= b <= 26
  {
    ToAsciiUppercase(c) as int - 'A' as int + 1
  }

  /** Upper and lower case of a letter have the same number, and no other letter has it. */
  lemma {:induction false} LetterValueCases(c: char, k: int)
    requires IsAsciiAlphabetic(c) && 1 <= k <= 26
    ensures LetterValue(c) == k <==> c as int == 'A' as int + k - 1 || c as int == 'a' as int + k - 1
  {
  }

  /** `textbyte`: one number per ASCII letter, in order; every other character is dropped. */
  function TextBytes(text: string): (r: seq<Byte>)
    ensures |r| <= |text|
    ensures forall i :: 0 <= i < |r| ==> 1 <= r[i] <= 26
    decreases |text|
  {
    if |text| == 0 then []
    else if IsAsciiAlphabetic(text[0]) then [LetterValue(text[0])] + TextBytes(text[1..])
    else TextBytes(text[1..])
  }

  /** `textbyte` works character by character, so it distributes over concatenation. */
  lemma {:induction false} TextBytesAppend(a: string, b: string)
    ensures TextBytes(a + b) == TextBytes(a) + TextBytes(b)
    decreases |a|
  {
    if |a| == 0 {
      assert a + b == b;
    } else {
      assert (a + b)[0] == a[0];
      assert (a + b)[1..] == a[1..] + b;
      TextBytesAppend(a[1..], b);
    }
  }

  /** A text without ASCII letters yields nothing, and every letter yields a number. */
  lemma {:induction false} TextBytesLength(text: string)
    ensures |TextBytes(text)| == |Letters(text)|
    decreases |text|
  {
    if |text| > 0 {
      TextBytesLength(text[1..]);
    }
  }

  /** The examples in the source's tests: letters only. */
  lemma TextBytesExamples()
    ensures TextBytes("abc") == [1, 2, 3]
    ensures TextBytes("xyz") == [24, 25, 26]
  {
    assert "abc"[1..] == "bc";
    assert "bc"[1..] == "c";
    assert "c"[1..] == "";
    assert "xyz"[1..] == "yz";
    assert "yz"[1..] == "z";
    assert "z"[1..] == "";
  }

  /** The examples in the source's tests: a space between the letters is dropped. */
  lemma TextBytesSpaceExample()
    ensures TextBytes("abc def") == [1, 2, 3, 4, 5, 6]
  {
    assert "abc def"[1..] == "bc def";
    assert "bc def"[1..] == "c def";
    assert "c def"[1..] == " def";
    assert " def"[1..] == "def";
    assert "def"[1..] == "ef";
    assert "ef"[1..] == "f";
    assert "f"[1..] == "";
  }

  /** The examples in the source's tests: a full stop between the letters is dropped. */
  lemma TextBytesStopExample()
    ensures TextBytes("xyz.fed") == [24, 25, 26, 6, 5, 4]
  {
    assert "xyz.fed"[1..] == "yz.fed";
    assert "yz.fed"[1..] == "z.fed";
    assert "z.fed"[1..] == ".fed";
    assert ".fed"[1..] == "fed";
    assert "fed"[1..] == "ed";
    assert "ed"[1..] == "d";
    assert "d"[1..] == "";
  }

  /** The ASCII letters of a text, upper-cased: what `textbyte` keeps, as text. */
  function Letters(text: string): (r: string)
    ensures forall i :: 0 <= i < |r| ==> 'A' <= r[i] <= 'Z'
    decreases |text|
  {
    if |text| == 0 then []
    else if IsAsciiAlphabetic(text[0]) then [ToAsciiUppercase(text[0])] + Letters(text[1..])
    else Letters(text[1..])
  }

  // ----------------------------------------------------------------- pad

  /** `a` groups of `g` are at least one group. */
  lemma {:induction false} GroupsAtLeastOne(a: nat, g: nat)
    requires a >= 1
    ensures a * g >= g
    decreases a
  {
    if a > 1 {
      GroupsAtLeastOne(a - 1, g);
      assert a * g == (a - 1) * g + g;
    }
  }

  /** Euclidean division is unique: `q * g + m` with `0 <= m < g` has remainder `m`. */
  lemma {:induction false} RemainderOf(x: int, q: int, m: int, g: int)
    requires g > 0 && 0 <= m < g && x == q * g + m
    ensures x % g == m && x / g == q
  {
    var q', m' := x / g, x % g;
    assert x == q' * g + m';
    if q' > q {
      assert q' * g - q * g == (q' - q) * g;
      GroupsAtLeastOne(q' - q, g);
    } else if q' < q {
      assert q * g - q' * g == (q - q') * g;
      GroupsAtLeastOne(q - q', g);
    }
  }

  /**
   * How many copies of the padding `pad` appends to `n` items: the indices
   * `n .. n + k` are exactly those the `take_while` lets through.
   */
  function PadCount(n: nat, groupSize: nat): (k: nat)
    requires groupSize > 0
    ensures k < groupSize && (n + k) % groupSize == 0
    ensures forall i :: n <= i < n + k ==> i % groupSize != 0
  {
    var q, m := n / groupSize, n % groupSize;
    var k := if m == 0 then 0 else groupSize - m;
    RemainderOf(n + k, q + (if m == 0 then 0 else 1), 0, groupSize);
    assert forall i :: n <= i < n + k ==> i % groupSize != 0 by {
      forall i | n <= i < n + k
        ensures i % groupSize != 0
      {
        RemainderOf(i, q, m + (i - n), groupSize);
      }
    }
    k
  }

  /**
   * `pad`: the stream, then copies of `padding` for as long as the index
   * reached is not a multiple of `groupSize` (the `take_while` over the
   * `zip_longest` with an endless `padding`). A zero group size divides by
   * zero in the source and is excluded.
   */
  function Pad<T>(s: seq<T>, padding: T, groupSize: nat): (r: seq<T>)
    requires groupSize > 0
    ensures |s| <= |r| && r[..|s|] == s
    ensures forall i :: |s| <= i < |r| ==> r[i] == padding
    ensures forall i :: |s| <= i < |r| ==> i % groupSize != 0
    ensures |r| % groupSize == 0
  {
    s + Repeat(padding, PadCount(|s|, groupSize))
  }

  /** `n` copies of `x`. */
  function Repeat<T>(x: T, n: nat): (r: seq<T>)
    ensures |r| == n && forall i :: 0 <= i < n ==> r[i] == x
  {
    if n == 0 then [] else [x] + Repeat(x, n - 1)
  }

  /** The padded length is the least multiple of the group size that holds the stream. */
  lemma {:induction false} PadLength<T>(s: seq<T>, padding: T, groupSize: nat, m: nat)
    requires groupSize > 0 && |s| <= m && m % groupSize == 0
    ensures |s| <= |Pad(s, padding, groupSize)| <= m
    ensures |s| == 0 ==> Pad(s, padding, groupSize) == []
  {
  }

  /** A stream whose length is already a multiple of the group size is left alone. */
  lemma {:induction false} PadAligned<T>(s: seq<T>, padding: T, groupSize: nat)
    requires groupSize > 0 && |s| % groupSize == 0
    ensures Pad(s, padding, groupSize) == s
  {
    PadLength(s, padding, groupSize, |s|);
  }

  /** Padding twice pads once. */
  lemma {:induction false} PadIdempotent<T>(s: seq<T>, padding: T, groupSize: nat)
    requires groupSize > 0
    ensures Pad(Pad(s, padding, groupSize), padding, groupSize) == Pad(s, padding, groupSize)
  {
    PadAligned(Pad(s, padding, groupSize), padding, groupSize);
  }

  /** The examples in the source's tests: one letter padded with X (24) into a group of five. */
  lemma PadOneExample()
    ensures Pad(TextBytes("a"), 24, 5) == [1, 24, 24, 24, 24]
  {
    assert "a"[1..] == "";
    assert PadCount(1, 5) == 4;
  }

  /** The examples in the source's tests: a stream that fills its groups, or is empty, stays as it is. */
  lemma PadAlignedExamples()
    ensures Pad(TextBytes("abcde"), 24, 5) == [1, 2, 3, 4, 5]
    ensures Pad(TextBytes("."), 24, 5) == []
    ensures Pad(TextBytes(""), 24, 5) == []
  {
    assert "abcde"[1..] == "bcde";
    assert "bcde"[1..] == "cde";
    assert "cde"[1..] == "de";
    assert "de"[1..] == "e";
    assert "e"[1..] == "";
    assert "."[1..] == "";
    assert PadCount(5, 5) == 0 && PadCount(0, 5) == 0;
  }

  /** The examples in the source's tests: six letters fill one group and start a second. */
  lemma PadSixExample()
    ensures Pad(TextBytes("abcdef"), 24, 5) == [1, 2, 3, 4, 5, 6, 24, 24, 24, 24]
  {
    assert "abcdef"[1..] == "bcdef";
    assert "bcdef"[1..] == "cdef";
    assert "cdef"[1..] == "def";
    assert "def"[1..] == "ef";
    assert "ef"[1..] == "f";
    assert "f"[1..] == "";
    assert TextBytes("abcdef") == [1, 2, 3, 4, 5, 6];
    assert PadCount(6, 5) == 4;
  }

  /** The examples in the source's tests: four letters among full stops need one X. */
  lemma PadStopsExample()
    ensures Pad(TextBytes("a.b.c.d"), 24, 5) == [1, 2, 3, 4, 24]
  {
    assert "a.b.c.d"[1..] == ".b.c.d";
    assert ".b.c.d"[1..] == "b.c.d";
    assert "b.c.d"[1..] == ".c.d";
    assert ".c.d"[1..] == "c.d";
    assert "c.d"[1..] == ".d";
    assert ".d"[1..] == "d";
    assert "d"[1..] == "";
    assert TextBytes("a.b.c.d") == [1, 2, 3, 4];
    assert PadCount(4, 5) == 1;
  }

  // ------------------------------------------------------------- restore

  /**
   * One number back to a letter: `(((b - 1) % 26) + b'A') as char`. The `u8`
   * subtraction overflows for 0, which the source does not guard against.
   */
  function RestoreByte(b: Byte): (c: char)
    requires b >= 1
    ensures 'A' <= c <= 'Z'
  {
    ((b - 1) % 26 + 'A' as int) as char
  }

  /** `restore`: every number to its letter. */
  function Restore(bytes: seq<Byte>): (r: string)
    requires forall i :: 0 <= i < |bytes| ==> bytes[i] >= 1
    ensures |r| == |bytes|
    ensures forall i :: 0 <= i < |r| ==> 'A' <= r[i] <= 'Z'
    decreases |bytes|
  {
    if |bytes| == 0 then [] else [RestoreByte(bytes[0])] + Restore(bytes[1..])
  }

  /** Numbers 26 apart restore to the same letter. */
  lemma {:induction false} RestorePeriodic(b: Byte)
    requires 1 <= b && b + 26 < 256
    ensures RestoreByte(b) == RestoreByte(b + 26)
  {
    assert (b + 26 - 1) % 26 == (b - 1) % 26;
  }

  /** `restore` undoes the numbering of a letter, up to case. */
  lemma {:induction false} RestoreLetter(c: char)
    requires IsAsciiAlphabetic(c)
    ensures RestoreByte(LetterValue(c)) == ToAsciiUppercase(c)
  {
  }

  /** The numbering undoes `restore` on 1..26. */
  lemma {:induction false} LetterRestore(b: Byte)
    requires 1 <= b <= 26
    ensures IsAsciiAlphabetic(RestoreByte(b)) && LetterValue(RestoreByte(b)) == b
  {
  }

  /** `restore(textbyte(s))` is the letters of `s`, upper-cased. */
  lemma {:induction false} RestoreTextBytes(text: string)
    ensures Restore(TextBytes(text)) == Letters(text)
    decreases |text|
  {
    if |text| > 0 {
      RestoreTextBytes(text[1..]);
      if IsAsciiAlphabetic(text[0]) {
        var rest := TextBytes(text[1..]);
        var bytes := [LetterValue(text[0])] + rest;
        assert bytes[1..] == rest;
        RestoreLetter(text[0]);
      }
    }
  }

  // ------------------------------------------------------------ separate

  /** `chunks(group_size)`: consecutive groups of `groupSize`, the last possibly shorter. */
  function Chunks<T>(s: seq<T>, groupSize: nat): (r: seq<seq<T>>)
    requires groupSize > 0
    ensures |s| == 0 <==> |r| == 0
    ensures forall i :: 0 <= i < |r| ==> 0 < |r[i]| <= groupSize
    ensures forall i :: 0 <= i < |r| - 1 ==> |r[i]| == groupSize
    decreases |s|
  {
    if |s| == 0 then []
    else if |s| <= groupSize then [s]
    else [s[..groupSize]] + Chunks(s[groupSize..], groupSize)
  }

  /** `flatten`: the groups one after another. */
  function Flatten<T>(groups: seq<seq<T>>): seq<T>
    decreases |groups|
  {
    if |groups| == 0 then [] else groups[0] + Flatten(groups[1..])
  }

  /** The groups hold the stream, in order, and nothing else. */
  lemma {:induction false} FlattenChunks<T>(s: seq<T>, groupSize: nat)
    requires groupSize > 0
    ensures Flatten(Chunks(s, groupSize)) == s
    decreases |s|
  {
    if |s| > groupSize {
      var rest := Chunks(s[groupSize..], groupSize);
      assert ([s[..groupSize]] + rest)[1..] == rest;
      FlattenChunks(s[groupSize..], groupSize);
    } else if |s| > 0 {
      assert [s][1..] == [];
    }
  }

  /** Each group followed by a separator: `interleave_shortest` with an endless separator, flattened. */
  function Interleave<T>(groups: seq<seq<T>>, sep: T): (r: seq<T>)
    ensures |groups| > 0 ==> |r| > 0 && r[|r| - 1] == sep
    decreases |groups|
  {
    if |groups| == 0 then []
    else
      var rest := Interleave(groups[1..], sep);
      var r := groups[0] + [sep] + rest;
      assert r[|r| - 1] == if |rest| == 0 then sep else rest[|rest| - 1];
      r
  }

  /**
   * `separate`: the interleaved stream, keeping every element (`Only`,
   * `First`, `Middle`) except a `Last` one equal to the separator. The
   * result is the groups joined by single separators, with none trailing.
   */
  function Separate<T(==)>(s: seq<T>, sep: T, groupSize: nat): (r: seq<T>)
    requires groupSize > 0
    ensures r == Join(Chunks(s, groupSize), sep)
    ensures |s| == 0 ==> r == []
  {
    var groups := Chunks(s, groupSize);
    var all := Interleave(groups, sep);
    var r := if |all| >= 2 && all[|all| - 1] == sep then all[..|all| - 1] else all;
    if |groups| > 0 then
      InterleaveJoin(groups, sep);
      assert r == Join(groups, sep);
      r
    else
      r
  }

  /** The groups with one separator between neighbours, none before or after. */
  function Join<T>(groups: seq<seq<T>>, sep: T): (r: seq<T>)
    decreases |groups|
  {
    if |groups| == 0 then []
    else if |groups| == 1 then groups[0]
    else groups[0] + [sep] + Join(groups[1..], sep)
  }

  /** The interleaving is the join with one trailing separator. */
  lemma {:induction false} InterleaveJoin<T>(groups: seq<seq<T>>, sep: T)
    requires |groups| > 0
    ensures Interleave(groups, sep) == Join(groups, sep) + [sep]
    decreases |groups|
  {
    if |groups| > 1 {
      InterleaveJoin(groups[1..], sep);
    } else {
      assert groups[1..] == [];
    }
  }

  /** A join holds every element of the groups and one separator fewer than there are groups. */
  lemma {:induction false} JoinLength<T>(groups: seq<seq<T>>, sep: T)
    requires |groups| > 0
    ensures |Join(groups, sep)| == |Flatten(groups)| + |groups| - 1
    decreases |groups|
  {
    if |groups| > 1 {
      JoinLength(groups[1..], sep);
    } else {
      assert groups[1..] == [];
    }
  }

  /** There are as many groups as it takes to hold the stream: the last one is not empty. */
  lemma {:induction false} ChunkCount<T>(s: seq<T>, groupSize: nat)
    requires groupSize > 0
    ensures (|Chunks(s, groupSize)| - 1) * groupSize < |s| <= |Chunks(s, groupSize)| * groupSize
      || (|s| == 0 && |Chunks(s, groupSize)| == 0)
    decreases |s|
  {
    if |s| > groupSize {
      var c := |Chunks(s[groupSize..], groupSize)|;
      ChunkCount(s[groupSize..], groupSize);
      assert |Chunks(s, groupSize)| == c + 1;
      assert (c + 1) * groupSize == c * groupSize + groupSize;
    }
  }

  /**
   * A separated stream is the stream with one separator more per group
   * after the first.
   */
  lemma {:induction false} SeparateLength<T>(s: seq<T>, sep: T, groupSize: nat)
    requires groupSize > 0 && |s| > 0
    ensures |Separate(s, sep, groupSize)| == |s| + |Chunks(s, groupSize)| - 1
  {
    JoinLength(Chunks(s, groupSize), sep);
    FlattenChunks(s, groupSize);
  }
}
