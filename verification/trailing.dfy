// skip_trailing_space of the bundled MySQL headers: two forms that look at whole words, both equal to the loop over
// single bytes.

module TrailingSpace {
  import opened ByteOrder

  const SPACE: Byte := 0x20

  /** The length of the text without its trailing spaces. */
  function Trimmed(b: seq<Byte>): (n: nat)
    ensures n <= |b|
    ensures forall i :: n <= i < |b| ==> b[i] == SPACE
    ensures n > 0 ==> b[n - 1] != SPACE
  {
    if b == [] || b[|b| - 1] != SPACE then |b| else Trimmed(b[..|b| - 1])
  }

  /** The trimmed length is the only length with that property. */
  lemma TrimmedIs(b: seq<Byte>, n: nat)
    requires n <= |b| && (forall i :: n <= i < |b| ==> b[i] == SPACE) && (n > 0 ==> b[n - 1] != SPACE)
    ensures Trimmed(b) == n
  {
  }

  predicate AllSpaces(b: seq<Byte>) { forall i :: 0 <= i < |b| ==> b[i] == SPACE }

  /** The word of n spaces. */
  function SpaceWord(n: nat): nat { if n == 0 then 0 else 0x20 + 0x100 * SpaceWord(n - 1) }

  lemma SpaceWordIs()
    ensures SpaceWord(4) == 0x2020_2020 && SpaceWord(8) == 0x2020_2020_2020_2020
  {
    assert SpaceWord(2) == 0x2020;
    assert SpaceWord(6) == 0x2020_2020_2020;
  }

  /** A little-endian word equals the word of spaces exactly when all its bytes are spaces. */
  lemma {:induction false} SpaceWordLittle(b: seq<Byte>)
    ensures Value(b) == SpaceWord(|b|) <==> AllSpaces(b)
  {
    if b != [] {
      SpaceWordLittle(b[1..]);
      assert AllSpaces(b) <==> b[0] == SPACE && AllSpaces(b[1..]);
    }
  }

  /** The number that the bytes stand for, high byte first. */
  function BigValue(b: seq<Byte>): nat { if b == [] then 0 else 0x100 * BigValue(b[..|b| - 1]) + b[|b| - 1] }

  lemma {:induction false} SpaceWordBig(b: seq<Byte>)
    ensures BigValue(b) == SpaceWord(|b|) <==> AllSpaces(b)
  {
    if b != [] {
      SpaceWordBig(b[..|b| - 1]);
      assert AllSpaces(b) <==> b[|b| - 1] == SPACE && AllSpaces(b[..|b| - 1]);
    }
  }

  /** The form that reads eight bytes at a time at any address. Positions are offsets into the text; every read is an
      offset that uint8korr accepts, so it stays inside the text. */
  method SkipTrailingSpace(text: seq<Byte>) returns (end: nat)
    ensures end == Trimmed(text)
  {
    end := |text|;
    SpaceWordIs();
    while end >= 8
      invariant end <= |text| && AllSpaces(text[end..])
    {
      SpaceWordLittle(Field(text, end - 8, 8));
      if Uint8Korr(text, end - 8) != 0x2020_2020_2020_2020 {
        break;
      }
      assert text[end - 8..] == Field(text, end - 8, 8) + text[end..];
      end := end - 8;
    }
    while end > 0 && text[end - 1] == SPACE
      invariant end <= |text| && AllSpaces(text[end..])
    {
      assert text[end - 1..] == [text[end - 1]] + text[end..];
      end := end - 1;
    }
    assert forall i :: end <= i < |text| ==> text[i] == text[end..][i - end];
    TrimmedIs(text, end);
  }

  /** SIZEOF_INT, which the preprocessor allows to be 4 or 8. */
  predicate WordSize(word: nat) { word == 4 || word == 8 }

  predicate Aligned(a: nat, word: nat) { if word == 4 then a % 4 == 0 else a % 8 == 0 }

  /** `a / SIZEOF_INT * SIZEOF_INT`. */
  function Down(a: nat, word: nat): (r: nat)
    requires WordSize(word)
    ensures r <= a < r + word && Aligned(r, word)
  {
    if word == 4 then
      assert a == a / 4 * 4 + a % 4;
      a / 4 * 4
    else
      assert a == a / 8 * 8 + a % 8;
      a / 8 * 8
  }

  /** The first aligned address from a on, computed in 64-bit arithmetic. */
  function Up(a: nat, word: nat): (r: nat)
    requires WordSize(word) && a + word < 0x1_0000_0000_0000_0000
    ensures a <= r < a + word && Aligned(r, word)
  {
    Down(U64(a + word - 1), word)
  }

  lemma Gap4(a: nat, b: nat)
    requires a % 4 == 0 && b % 4 == 0 && a < b
    ensures a + 4 <= b && (b - 4) % 4 == 0
  {
  }

  lemma Gap8(a: nat, b: nat)
    requires a % 8 == 0 && b % 8 == 0 && a < b
    ensures a + 8 <= b && (b - 8) % 8 == 0
  {
  }

  /** Aligned addresses are a whole word apart. */
  lemma AlignedGap(a: nat, b: nat, word: nat)
    requires WordSize(word) && Aligned(a, word) && Aligned(b, word) && a < b
    ensures a + word <= b && Aligned(b - word, word)
  {
    if word == 4 {
      Gap4(a, b);
    } else {
      Gap8(a, b);
    }
  }

  /** A text in memory: the address of its first byte, and its bytes. */
  datatype Memory = Memory(base: nat, text: seq<Byte>) {
    predicate Valid() { base + |text| < 0x1_0000_0000_0000_0000 }

    function Limit(): nat { base + |text| }

    function At(a: nat): Byte
      requires base <= a < Limit()
    {
      text[a - base]
    }

    /** A load of one machine word: the address has to be aligned and the word inside the text. */
    function LoadWord(a: nat, word: nat): (r: nat)
      requires Aligned(a, word) && base <= a && a + word <= Limit()
      ensures r == BigValue(text[a - base..a - base + word])
    {
      BigValue(text[a - base..a - base + word])
    }

    /** Everything from address a on is a space. */
    predicate SpacesFrom(a: nat) { base <= a <= Limit() && forall i :: a - base <= i < |text| ==> text[i] == SPACE }

    lemma SpaceWordGrows(a: nat, word: nat)
      requires WordSize(word) && Aligned(a, word) && base <= a && a + word <= Limit()
      requires SpacesFrom(a + word) && LoadWord(a, word) == SpaceInt(word)
      ensures SpacesFrom(a)
    {
      var b := text[a - base..a - base + word];
      SpaceWordIs();
      SpaceWordBig(b);
      forall i | a - base <= i < |text| ensures text[i] == SPACE {
        assert i < a - base + word ==> text[i] == b[i - (a - base)];
      }
    }
  }

  /** SPACE_INT. */
  function SpaceInt(word: nat): nat { if word == 4 then 0x2020_2020 else 0x2020_2020_2020_2020 }

  /** The form for machines that only load aligned words, of 4 or 8 bytes. `end_words` and `start_words` are computed in
      64-bit arithmetic, which does not wrap for any text in memory longer than 20 bytes. */
  method SkipTrailingSpaceAligned(m: Memory, word: nat) returns (end: nat)
    requires m.Valid() && WordSize(word)
    ensures end == m.base + Trimmed(m.text)
  {
    end := m.Limit();
    if |m.text| > 20 {
      var endWords := Down(end, word);
      var startWords := Up(m.base, word);
      while end > endWords && m.At(end - 1) == SPACE
        invariant endWords <= end && m.SpacesFrom(end)
      {
        end := end - 1;
      }
      if m.At(end - 1) == SPACE && startWords < endWords {
        AlignedGap(startWords, end, word);
        while end > startWords && m.LoadWord(end - word, word) == SpaceInt(word)
          invariant startWords <= end && Aligned(end, word) && m.SpacesFrom(end)
          invariant end > startWords ==> startWords + word <= end && Aligned(end - word, word)
        {
          m.SpaceWordGrows(end - word, word);
          end := end - word;
          if end > startWords {
            AlignedGap(startWords, end, word);
          }
        }
      }
    }
    while end > m.base && m.At(end - 1) == SPACE
      invariant m.SpacesFrom(end)
    {
      end := end - 1;
    }
    TrimmedIs(m.text, end - m.base);
  }
}
