/**
 * `CClipboardListener::fillVectorAlphabeticIndex`: a case-insensitive count
 * of the ASCII letters of a text, accumulated into a vector of 26 unsigned
 * shorts, together with the two private helpers it relies on.
 *
 * The text is a C++ `std::string`, so its elements are `char`, which is
 * signed and 8 bits wide on the platforms the program targets.
 */
module AlphabeticIndex {

  /** A signed 8-bit `char`. */
  newtype SChar = x: int | -128 <= x < 128

  /** An `unsigned short` slot value. */
  type UShort = x: int | 0 <= x < 0x1_0000

  const LETTERS: nat := 26

  /** `x | 32` for a non-negative `x`: sets bit 5. */
  function Or32(x: nat): (r: nat)
    ensures r == x || r == x + 32
    ensures (r / 32) % 2 == 1
  {
    if (x / 32) % 2 == 1 then x else x + 32
  }

  /** The implicit conversion of a `char` argument to `unsigned`: sign extension to 32 bits. */
  function ToUnsigned(c: SChar): (u: nat)
    ensures u < 0x1_0000_0000
    ensures c >= 0 ==> u == c as int
    ensures c < 0 ==> u == c as int + 0x1_0000_0000
  {
    if c >= 0 then c as int else c as int + 0x1_0000_0000
  }

  /** The private `isalpha`: `(c | 32) - 'a' < 26`, computed in 32-bit unsigned arithmetic. */
  predicate IsAlpha(c: SChar)
  {
    (Or32(ToUnsigned(c)) - 97) % 0x1_0000_0000 < 26
  }

  predicate IsAsciiLetter(c: SChar)
  {
    65 <= c <= 90 || 97 <= c <= 122
  }

  /** `c |= 32` on a signed `char`: sets bit 5 of its two's complement byte. */
  function SetBit5(c: SChar): (r: SChar)
    ensures r == c || r as int == c as int + 32
  {
    var v := Or32((c as int + 256) % 256);
    if v >= 128 then (v - 256) as SChar else v as SChar
  }

  /**
   * The private `tolower`, which rewrites its `char&` argument in place:
   * `if (c - 'A' < 26) c |= 32`.  The comparison is between signed ints,
   * so it also holds for every `char` below 'A'.  The helper always
   * returns true, so in the caller's condition only `isalpha` decides.
   */
  function ToLower(c: SChar): (r: SChar)
    ensures 65 <= c <= 90 ==> r as int == c as int + 32
    ensures c as int - 65 >= 26 ==> r == c
  {
    if c as int - 65 < 26 then SetBit5(c) else c
  }

  /** `isalpha` accepts exactly the 52 ASCII letters: no other byte, and no negative `char`. */
  lemma IsAlphaMeansAsciiLetter(c: SChar)
    ensures IsAlpha(c) <==> IsAsciiLetter(c)
  {
    var u := ToUnsigned(c);
    var o := Or32(u);
    if c < 0 {
      assert 0x1_0000_0000 - 128 <= u;
      if o == u + 32 {
        assert (u / 32) % 2 == 0;
        assert u <= 0x1_0000_0000 - 33;
      }
      assert 0x1_0000_0000 - 128 <= o < 0x1_0000_0000;
      assert (o - 97) % 0x1_0000_0000 == o - 97;
    } else if u < 32 {
      assert o == u + 32;
    } else if u < 64 {
      assert o == u;
    } else if u < 96 {
      assert o == u + 32;
    } else {
      assert o == u;
    }
  }

  /** The slot a letter counts into: its lower-case form minus 'a'. */
  function Slot(c: SChar): (k: int)
    requires IsAsciiLetter(c)
    ensures 0 <= k < LETTERS
    ensures k == (if c <= 90 then c as int - 65 else c as int - 97)
  {
    ToLower(c) as int - 97
  }

  /** The upper- and lower-case form of the k-th letter count into the same slot, slot k. */
  lemma CaseInsensitive(k: int)
    requires 0 <= k < LETTERS
    ensures IsAlpha((65 + k) as SChar) && IsAlpha((97 + k) as SChar)
    ensures Slot((65 + k) as SChar) == Slot((97 + k) as SChar) == k
  {
    IsAlphaMeansAsciiLetter((65 + k) as SChar);
    IsAlphaMeansAsciiLetter((97 + k) as SChar);
  }

  /** How many characters of `s` the loop counts into slot `k`. */
  function LetterCount(s: seq<SChar>, k: int): nat
  {
    if s == [] then 0
    else
      var c := s[|s| - 1];
      LetterCount(s[..|s| - 1], k) + (if IsAlpha(c) && ToLower(c) as int - 97 == k then 1 else 0)
  }

  /** Adding to an `unsigned short` that already wrapped is the same as wrapping once at the end. */
  lemma WrapAdd(a: nat, b: nat)
    ensures (a % 0x1_0000 + b) % 0x1_0000 == (a + b) % 0x1_0000
  {
    var q := a / 0x1_0000;
    assert a == q * 0x1_0000 + a % 0x1_0000;
    assert a + b == (a % 0x1_0000 + b) + q * 0x1_0000;
  }

  /** `resize(26)`: keeps the first 26 slots, pads with zeros. */
  function Resize(v: seq<UShort>, n: nat): (r: seq<UShort>)
    ensures |r| == n
    ensures forall k :: 0 <= k < n ==> r[k] == (if k < |v| then v[k] else 0)
  {
    if |v| >= n then v[..n] else v + seq(n - |v|, _ => 0)
  }

  /** The vector after the call: previous counts plus letter counts, wrapping at 2^16. */
  function AlphabeticIndexOf(content: seq<SChar>, slots: seq<UShort>): seq<UShort>
  {
    var base := Resize(slots, LETTERS);
    seq(LETTERS, k requires 0 <= k < LETTERS => (base[k] as int + LetterCount(content, k)) % 0x1_0000)
  }

  /**
   * The in-place fill: resize to 26, then for every character that
   * `isalpha` accepts, lower-case it and bump its slot (an `unsigned
   * short` increment, which wraps).
   */
  method FillVectorAlphabeticIndex(content: seq<SChar>, slots: seq<UShort>) returns (r: seq<UShort>)
    ensures r == AlphabeticIndexOf(content, slots)
  {
    r := Resize(slots, LETTERS);
    ghost var base := r;
    for j := 0 to |content|
      invariant |r| == LETTERS
      invariant forall k :: 0 <= k < LETTERS ==> r[k] == (base[k] as int + LetterCount(content[..j], k)) % 0x1_0000
    {
      var c := content[j];
      assert content[..j + 1][..j] == content[..j];
      assert content[..j + 1][j] == c;
      if IsAlpha(c) {
        IsAlphaMeansAsciiLetter(c);
        c := ToLower(c);
        var slot := c as int - 97;
        WrapAdd(base[slot] as int + LetterCount(content[..j], slot), 1);
        r := r[slot := (r[slot] as int + 1) % 0x1_0000];
      }
    }
    assert content[..|content|] == content;
  }

  /** Counting a text made of two parts counts each part separately. */
  lemma {:induction false} LetterCountConcat(s: seq<SChar>, t: seq<SChar>, k: int)
    ensures LetterCount(s + t, k) == LetterCount(s, k) + LetterCount(t, k)
    decreases |t|
  {
    if t == [] {
      assert s + t == s;
    } else {
      var t' := t[..|t| - 1];
      assert (s + t)[..|s + t| - 1] == s + t';
      assert (s + t)[|s + t| - 1] == t[|t| - 1];
      LetterCountConcat(s, t', k);
    }
  }

  /**
   * One character adds exactly one to the slot of its letter when it is an
   * ASCII letter (in either case), and nothing anywhere otherwise.
   */
  lemma LetterCountOne(c: SChar, k: int)
    ensures LetterCount([c], k) == (if IsAsciiLetter(c) && Slot(c) == k then 1 else 0)
  {
    IsAlphaMeansAsciiLetter(c);
    assert [c][..0] == [];
  }

  /** Appending a character that is not an ASCII letter (a digit, a space, a UTF-8 byte) changes no slot. */
  lemma NonLetterChangesNothing(content: seq<SChar>, c: SChar, slots: seq<UShort>)
    requires !IsAsciiLetter(c)
    ensures AlphabeticIndexOf(content + [c], slots) == AlphabeticIndexOf(content, slots)
  {
    forall k | 0 <= k < LETTERS
      ensures LetterCount(content + [c], k) == LetterCount(content, k)
    {
      LetterCountConcat(content, [c], k);
      LetterCountOne(c, k);
    }
  }

  /** Appending the k-th letter, upper or lower case, increments slot k by one and no other slot. */
  lemma LetterBumpsItsSlot(content: seq<SChar>, k: int, upper: bool, slots: seq<UShort>)
    requires 0 <= k < LETTERS
    ensures var c := (if upper then 65 + k else 97 + k) as SChar;
      var before := AlphabeticIndexOf(content, slots);
      var after := AlphabeticIndexOf(content + [c], slots);
      after == before[k := (before[k] as int + 1) % 0x1_0000]
  {
    var c := (if upper then 65 + k else 97 + k) as SChar;
    var before := AlphabeticIndexOf(content, slots);
    var after := AlphabeticIndexOf(content + [c], slots);
    var bumped := before[k := (before[k] as int + 1) % 0x1_0000];
    SlotAfterFill(content, slots, 0);
    SlotAfterFill(content + [c], slots, 0);
    forall j | 0 <= j < LETTERS
      ensures after[j] == bumped[j]
    {
      SlotAfterFill(content, slots, j);
      SlotAfterFill(content + [c], slots, j);
      LetterCountConcat(content, [c], j);
      LetterCountOne(c, j);
      if j == k {
        WrapAdd(Resize(slots, LETTERS)[j] as int + LetterCount(content, j), 1);
      }
    }
  }

  /** One slot of the vector after the call, read off its definition. */
  lemma SlotAfterFill(content: seq<SChar>, slots: seq<UShort>, k: nat)
    requires k < LETTERS
    ensures |AlphabeticIndexOf(content, slots)| == LETTERS
    ensures AlphabeticIndexOf(content, slots)[k] as int == (Resize(slots, LETTERS)[k] as int + LetterCount(content, k)) % 0x1_0000
  {
  }

  /** Filling twice accumulates the counts of both texts. */
  lemma FillTwice(s: seq<SChar>, t: seq<SChar>, slots: seq<UShort>)
    ensures AlphabeticIndexOf(t, AlphabeticIndexOf(s, slots)) == AlphabeticIndexOf(s + t, slots)
  {
    var mid := AlphabeticIndexOf(s, slots);
    var twice := AlphabeticIndexOf(t, mid);
    var once := AlphabeticIndexOf(s + t, slots);
    forall k | 0 <= k < LETTERS
      ensures twice[k] == once[k]
    {
      var base := Resize(slots, LETTERS)[k] as int;
      SlotAfterFill(s, slots, k);
      SlotAfterFill(t, mid, k);
      SlotAfterFill(s + t, slots, k);
      assert Resize(mid, LETTERS)[k] == mid[k];
      LetterCountConcat(s, t, k);
      WrapAdd(base + LetterCount(s, k), LetterCount(t, k));
      assert twice[k] as int == once[k] as int;
    }
    SlotAfterFill(t, mid, 0);
    SlotAfterFill(s + t, slots, 0);
  }
}
