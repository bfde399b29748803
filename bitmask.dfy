/**
 * The set of "safe" bytes that the encoder copies unchanged: a bitmask of
 * three 32-bit words covering the code points 32..=127 (`Bitmask` in src/lib.rs).
 * Word `(ch - 32) / 32` holds byte `ch` at bit `ch % 32`.
 */
module Bitmasks {
  import opened ByteStrings

  /** The `[u32; 3]` array of a bitmask, as its three words. */
  datatype Bitmask = Bitmask(w0: bv32, w1: bv32, w2: bv32)

  /** Word `k` of the array, `self.0[k]`. */
  function Word(m: Bitmask, k: int): bv32
    requires 0 <= k < 3
  {
    if k == 0 then m.w0 else if k == 1 then m.w1 else m.w2
  }

  /** The array with word `k` replaced by `w`. */
  function WithWord(m: Bitmask, k: int, w: bv32): (r: Bitmask)
    requires 0 <= k < 3
    ensures Word(r, k) == w
    ensures forall i :: 0 <= i < 3 && i != k ==> Word(r, i) == Word(m, i)
  {
    if k == 0 then m.(w0 := w) else if k == 1 then m.(w1 := w) else m.(w2 := w)
  }

  /** The bytes a bitmask can hold. */
  predicate InRange(ch: u8)
  {
    32 <= ch <= 127
  }

  /** `1_u32 << j`. */
  function Bit(j: bv5): bv32
  {
    1 << j
  }

  /** Whether bit `j` of word `w` is set: `w & (1 << j) != 0`. */
  predicate HasBit(w: bv32, j: bv5)
  {
    w & Bit(j) != 0
  }

  /** `w | (1 << j)`, the update `add` makes to a word. */
  function SetBit(w: bv32, j: bv5): bv32
  {
    w | Bit(j)
  }

  /** `w & !(1 << j)`, the update `remove` makes to a word. */
  function ClearBit(w: bv32, j: bv5): bv32
  {
    w & !Bit(j)
  }

  /** The bit that stands for byte `ch` inside its word, `ch % 32`. */
  function BitIndex(ch: u8): bv5
  {
    (ch as int % 32) as bv5
  }

  /** The word that holds byte `ch`, `(ch - 32) / 32`. */
  function WordOf(ch: u8): (k: nat)
    requires InRange(ch)
    ensures k < 3
  {
    (ch as int - 32) / 32
  }

  /** `Bitmask::contains`: bytes outside 32..=127 are never members. */
  function Contains(m: Bitmask, ch: u8): (r: bool)
    ensures r ==> InRange(ch)
  {
    if ch < 32 || ch > 127 then false
    else HasBit(Word(m, WordOf(ch)), BitIndex(ch))
  }

  /**
   * Byte `ch` is bit `ch - 32` of the 96, counted from bit 0 of word 0: the bit
   * index `ch % 32` is also `(ch - 32) % 32`.
   */
  lemma SlotOfByte(ch: u8)
    requires InRange(ch)
    ensures BitIndex(ch) == ((ch - 32) % 32) as bv5
    ensures 32 * WordOf(ch) + BitIndex(ch) as int == ch as int - 32
  {
  }

  /** Two in-range bytes share a word and a bit index exactly when they are the same byte. */
  lemma SlotsDistinct(a: u8, b: u8)
    requires InRange(a) && InRange(b)
    ensures WordOf(a) == WordOf(b) && BitIndex(a) == BitIndex(b) <==> a == b
  {
  }

  /** Every bit of the mask is the slot of an in-range byte. */
  lemma EverySlotUsed(k: nat, j: bv5) returns (ch: u8)
    requires k < 3
    ensures InRange(ch) && WordOf(ch) == k && BitIndex(ch) == j
  {
    ch := (32 + 32 * k + j as int) as u8;
  }

  // Single-bit facts about one word.

  lemma BitsOverlap(i: bv5, j: bv5)
    ensures Bit(i) & Bit(j) != 0 <==> i == j
  {
  }

  lemma AndOverOr(w: bv32, x: bv32, y: bv32)
    ensures (w | x) & y == (w & y) | (x & y)
  {
  }

  lemma OrNonZero(x: bv32, y: bv32)
    ensures x | y != 0 <==> x != 0 || y != 0
  {
  }

  lemma OrBit(w: bv32, i: bv5, j: bv5)
    ensures HasBit(w | Bit(i), j) <==> i == j || HasBit(w, j)
  {
    AndOverOr(w, Bit(i), Bit(j));
    OrNonZero(w & Bit(j), Bit(i) & Bit(j));
    BitsOverlap(i, j);
  }

  lemma AndNotBit(w: bv32, i: bv5, j: bv5)
    ensures HasBit(w & !Bit(i), j) <==> i != j && HasBit(w, j)
  {
  }

  /** Setting bit `i` of a word sets that bit and leaves every other bit as it was. */
  lemma SetBitTest(w: bv32, i: bv5, j: bv5)
    ensures HasBit(SetBit(w, i), j) <==> i == j || HasBit(w, j)
  {
    OrBit(w, i, j);
  }

  /** Clearing bit `i` of a word clears that bit and leaves every other bit as it was. */
  lemma ClearBitTest(w: bv32, i: bv5, j: bv5)
    ensures HasBit(ClearBit(w, i), j) <==> i != j && HasBit(w, j)
  {
    AndNotBit(w, i, j);
  }

  lemma OrPresent(w: bv32, i: bv5)
    requires w & Bit(i) != 0
    ensures w | Bit(i) == w
  {
  }

  lemma AndNotAbsent(w: bv32, i: bv5)
    requires w & Bit(i) == 0
    ensures w & !Bit(i) == w
  {
  }

  /** Setting a bit that is already set changes nothing. */
  lemma SetPresentBit(w: bv32, j: bv5)
    requires HasBit(w, j)
    ensures SetBit(w, j) == w
  {
    OrPresent(w, j);
  }

  /** Clearing a bit that is not set changes nothing. */
  lemma ClearAbsentBit(w: bv32, j: bv5)
    requires !HasBit(w, j)
    ensures ClearBit(w, j) == w
  {
    AndNotAbsent(w, j);
  }

  /**
   * `Bitmask::add`: sets the bit of an in-range `ch`, ignores any other byte.
   * Afterwards `ch` is a member exactly when it is in range.
   */
  function Add(m: Bitmask, ch: u8): (r: Bitmask)
    ensures Contains(r, ch) <==> InRange(ch)
    ensures !InRange(ch) ==> r == m
  {
    if ch >= 32 && ch <= 127 then
      var k := WordOf(ch);
      var j := BitIndex(ch);
      SetBitTest(Word(m, k), j, j);
      WithWord(m, k, SetBit(Word(m, k), j))
    else
      m
  }

  /**
   * `Bitmask::remove`: clears the bit of an in-range `ch`, ignores any other byte.
   * Afterwards `ch` is not a member.
   */
  function Remove(m: Bitmask, ch: u8): (r: Bitmask)
    ensures !Contains(r, ch)
    ensures !InRange(ch) ==> r == m
  {
    if ch >= 32 && ch <= 127 then
      var k := WordOf(ch);
      var j := BitIndex(ch);
      ClearBitTest(Word(m, k), j, j);
      WithWord(m, k, ClearBit(Word(m, k), j))
    else
      m
  }

  /** `add` makes an in-range `ch` a member and changes no other membership. */
  lemma AddMembers(m: Bitmask, ch: u8, c: u8)
    ensures Contains(Add(m, ch), c) <==> Contains(m, c) || (c == ch && InRange(ch))
  {
    if InRange(ch) && InRange(c) {
      SlotsDistinct(ch, c);
      if WordOf(c) == WordOf(ch) {
        SetBitTest(Word(m, WordOf(ch)), BitIndex(ch), BitIndex(c));
      }
    }
  }

  /** `remove` makes `ch` a non-member and changes no other membership. */
  lemma RemoveMembers(m: Bitmask, ch: u8, c: u8)
    ensures Contains(Remove(m, ch), c) <==> Contains(m, c) && c != ch
  {
    if InRange(ch) && InRange(c) {
      SlotsDistinct(ch, c);
      if WordOf(c) == WordOf(ch) {
        ClearBitTest(Word(m, WordOf(ch)), BitIndex(ch), BitIndex(c));
      }
    }
  }

  /** Adding a byte that is already a member (or out of range) leaves the mask as it was. */
  lemma AddPresent(m: Bitmask, ch: u8)
    requires Contains(m, ch) || !InRange(ch)
    ensures Add(m, ch) == m
  {
    if InRange(ch) {
      var k := WordOf(ch);
      SetPresentBit(Word(m, k), BitIndex(ch));
    }
  }

  /** Removing a byte that is not a member leaves the mask as it was. */
  lemma RemoveAbsent(m: Bitmask, ch: u8)
    requires !Contains(m, ch)
    ensures Remove(m, ch) == m
  {
    if InRange(ch) {
      var k := WordOf(ch);
      ClearAbsentBit(Word(m, k), BitIndex(ch));
    }
  }

  lemma AddIdempotent(m: Bitmask, ch: u8)
    ensures Add(Add(m, ch), ch) == Add(m, ch)
  {
    AddMembers(m, ch, ch);
    AddPresent(Add(m, ch), ch);
  }

  lemma RemoveIdempotent(m: Bitmask, ch: u8)
    ensures Remove(Remove(m, ch), ch) == Remove(m, ch)
  {
    RemoveMembers(m, ch, ch);
    RemoveAbsent(Remove(m, ch), ch);
  }

  // A word, and so a bitmask, is determined by its bits.

  /** The index of the lowest set bit of a non-zero word, found by halving. */
  function LowestBit(x: bv32): bv5
  {
    var a: bv5 := if x & 0xFFFF == 0 then 16 else 0;
    var x1 := x >> a;
    var b: bv5 := if x1 & 0xFF == 0 then 8 else 0;
    var x2 := x1 >> b;
    var c: bv5 := if x2 & 0xF == 0 then 4 else 0;
    var x3 := x2 >> c;
    var d: bv5 := if x3 & 0x3 == 0 then 2 else 0;
    var x4 := x3 >> d;
    var e: bv5 := if x4 & 1 == 0 then 1 else 0;
    a + b + c + d + e
  }

  /** A non-zero word has a set bit. */
  lemma SetBitOf(x: bv32) returns (j: bv5)
    requires x != 0
    ensures HasBit(x, j)
  {
    j := LowestBit(x);
  }

  lemma XorBit(a: bv32, b: bv32, j: bv5)
    ensures HasBit(a ^ b, j) <==> HasBit(a, j) != HasBit(b, j)
  {
  }

  lemma XorZero(a: bv32, b: bv32)
    ensures a ^ b == 0 <==> a == b
  {
  }

  /** A word is determined by its 32 bits. */
  lemma WordsAgree(a: bv32, b: bv32)
    requires forall j: bv5 :: HasBit(a, j) == HasBit(b, j)
    ensures a == b
  {
    if a != b {
      XorZero(a, b);
      var j := SetBitOf(a ^ b);
      XorBit(a, b, j);
      assert false;
    }
  }

  /**
   * Membership determines the bitmask: every one of the 96 bits stands for one
   * byte, so two masks holding the same bytes are the same value.
   */
  lemma SameMembersSameMask(m: Bitmask, n: Bitmask)
    requires forall c :: Contains(m, c) == Contains(n, c)
    ensures m == n
  {
    forall k | 0 <= k < 3
      ensures Word(m, k) == Word(n, k)
    {
      forall j: bv5
        ensures HasBit(Word(m, k), j) == HasBit(Word(n, k), j)
      {
        var c := EverySlotUsed(k, j);
        assert Contains(m, c) == Contains(n, c);
      }
      WordsAgree(Word(m, k), Word(n, k));
    }
    assert Word(m, 0) == Word(n, 0) && Word(m, 1) == Word(n, 1) && Word(m, 2) == Word(n, 2);
  }

  // `add_all` and `remove_all`.

  /** `add` keeps every member. */
  lemma AddKeeps(m: Bitmask, ch: u8)
    ensures forall c :: Contains(m, c) ==> Contains(Add(m, ch), c)
  {
    forall c | Contains(m, c) ensures Contains(Add(m, ch), c) {
      AddMembers(m, ch, c);
    }
  }

  /** `remove` adds no member. */
  lemma RemoveKeeps(m: Bitmask, ch: u8)
    ensures forall c :: Contains(Remove(m, ch), c) ==> Contains(m, c)
  {
    forall c | Contains(Remove(m, ch), c) ensures Contains(m, c) {
      RemoveMembers(m, ch, c);
    }
  }

  /**
   * The left fold of `Add` over `chars` that `add_all` computes,
   * `add(...add(add(m, chars[0]), chars[1])..., chars[n-1])`, peeled from its last step.
   * It never drops a member.
   */
  function FoldAdd(m: Bitmask, chars: seq<u8>): (r: Bitmask)
    ensures forall c :: Contains(m, c) ==> Contains(r, c)
  {
    if |chars| == 0 then m
    else
      var init := FoldAdd(m, chars[..|chars| - 1]);
      AddKeeps(init, chars[|chars| - 1]);
      Add(init, chars[|chars| - 1])
  }

  /** The left fold of `Remove` over `chars` that `remove_all` computes; it never adds a member. */
  function FoldRemove(m: Bitmask, chars: seq<u8>): (r: Bitmask)
    ensures forall c :: Contains(r, c) ==> Contains(m, c)
  {
    if |chars| == 0 then m
    else
      var init := FoldRemove(m, chars[..|chars| - 1]);
      RemoveKeeps(init, chars[|chars| - 1]);
      Remove(init, chars[|chars| - 1])
  }

  /** After `add_all`, the members are the old ones and the in-range bytes of `chars`. */
  lemma {:induction false} FoldAddMembers(m: Bitmask, chars: seq<u8>, c: u8)
    ensures Contains(FoldAdd(m, chars), c) <==> Contains(m, c) || (c in chars && InRange(c))
  {
    if |chars| > 0 {
      var init := chars[..|chars| - 1];
      FoldAddMembers(m, init, c);
      AddMembers(FoldAdd(m, init), chars[|chars| - 1], c);
      assert chars == init + [chars[|chars| - 1]];
    }
  }

  /** After `remove_all`, the members are the old ones except the bytes of `chars`. */
  lemma {:induction false} FoldRemoveMembers(m: Bitmask, chars: seq<u8>, c: u8)
    ensures Contains(FoldRemove(m, chars), c) <==> Contains(m, c) && c !in chars
  {
    if |chars| > 0 {
      var init := chars[..|chars| - 1];
      FoldRemoveMembers(m, init, c);
      RemoveMembers(FoldRemove(m, init), chars[|chars| - 1], c);
      assert chars == init + [chars[|chars| - 1]];
    }
  }

  /** Neither the order nor repetitions of `chars` matter to `add_all`. */
  lemma FoldAddOrderIrrelevant(m: Bitmask, chars: seq<u8>, others: seq<u8>)
    requires forall c :: c in chars <==> c in others
    ensures FoldAdd(m, chars) == FoldAdd(m, others)
  {
    forall c ensures Contains(FoldAdd(m, chars), c) == Contains(FoldAdd(m, others), c) {
      FoldAddMembers(m, chars, c);
      FoldAddMembers(m, others, c);
    }
    SameMembersSameMask(FoldAdd(m, chars), FoldAdd(m, others));
  }

  /** Neither the order nor repetitions of `chars` matter to `remove_all`. */
  lemma FoldRemoveOrderIrrelevant(m: Bitmask, chars: seq<u8>, others: seq<u8>)
    requires forall c :: c in chars <==> c in others
    ensures FoldRemove(m, chars) == FoldRemove(m, others)
  {
    forall c ensures Contains(FoldRemove(m, chars), c) == Contains(FoldRemove(m, others), c) {
      FoldRemoveMembers(m, chars, c);
      FoldRemoveMembers(m, others, c);
    }
    SameMembersSameMask(FoldRemove(m, chars), FoldRemove(m, others));
  }

  /** `Bitmask::add_all`: the `while` loop that reassigns the mask once per byte. */
  method AddAll(m: Bitmask, chars: seq<u8>) returns (r: Bitmask)
    ensures r == FoldAdd(m, chars)
  {
    r := m;
    var i := 0;
    while i < |chars|
      invariant 0 <= i <= |chars|
      invariant r == FoldAdd(m, chars[..i])
    {
      assert chars[..i + 1][..i] == chars[..i];
      r := Add(r, chars[i]);
      i := i + 1;
    }
    assert chars[..i] == chars;
  }

  /** `Bitmask::remove_all`: the `while` loop that reassigns the mask once per byte. */
  method RemoveAll(m: Bitmask, chars: seq<u8>) returns (r: Bitmask)
    ensures r == FoldRemove(m, chars)
  {
    r := m;
    var i := 0;
    while i < |chars|
      invariant 0 <= i <= |chars|
      invariant r == FoldRemove(m, chars[..i])
    {
      assert chars[..i + 1][..i] == chars[..i];
      r := Remove(r, chars[i]);
      i := i + 1;
    }
    assert chars[..i] == chars;
  }

  // The byte strings the preset masks are built from, written as bytes.

  /** `b"ABCDEFGHIJKLMNOPQRSTUVWXYZ"` */
  const UPPERCASE: seq<u8> := [0x41, 0x42, 0x43, 0x44, 0x45, 0x46, 0x47, 0x48, 0x49, 0x4A, 0x4B, 0x4C, 0x4D, 0x4E, 0x4F, 0x50, 0x51, 0x52, 0x53, 0x54, 0x55, 0x56, 0x57, 0x58, 0x59, 0x5A]
  /** `b"abcdefghijklmnopqrstuvwxyz"` */
  const LOWERCASE: seq<u8> := [0x61, 0x62, 0x63, 0x64, 0x65, 0x66, 0x67, 0x68, 0x69, 0x6A, 0x6B, 0x6C, 0x6D, 0x6E, 0x6F, 0x70, 0x71, 0x72, 0x73, 0x74, 0x75, 0x76, 0x77, 0x78, 0x79, 0x7A]
  /** `b"0123456789"` */
  const DIGITS: seq<u8> := [0x30, 0x31, 0x32, 0x33, 0x34, 0x35, 0x36, 0x37, 0x38, 0x39]
  /** `b"-_.!~*'()"` */
  const MARKS: seq<u8> := [0x2D, 0x5F, 0x2E, 0x21, 0x7E, 0x2A, 0x27, 0x28, 0x29]
  /** `b";/?:@&=+$,#"` */
  const URI_RESERVED: seq<u8> := [0x3B, 0x2F, 0x3F, 0x3A, 0x40, 0x26, 0x3D, 0x2B, 0x24, 0x2C, 0x23]
  /** `b"[]"` */
  const BRACKETS: seq<u8> := [0x5B, 0x5D]
  /** `b"!'()*"` */
  const RFC3986_DROPPED: seq<u8> := [0x21, 0x27, 0x28, 0x29, 0x2A]

  /** `b'%'`, `b'+'`, `b'/'` */
  const PERCENT: u8 := 0x25
  const PLUS: u8 := 0x2B
  const SLASH: u8 := 0x2F

  // The preset masks, composed as the constants of `Bitmask` are.

  const EMPTY: Bitmask := Bitmask(0, 0, 0)

  const URI_COMPONENT: Bitmask :=
    FoldAdd(FoldAdd(FoldAdd(FoldAdd(EMPTY, UPPERCASE), LOWERCASE), DIGITS), MARKS)

  const URI: Bitmask := FoldAdd(URI_COMPONENT, URI_RESERVED)

  const RFC3986: Bitmask := FoldRemove(FoldAdd(URI, BRACKETS), RFC3986_DROPPED)

  const PATH: Bitmask := Remove(URI_COMPONENT, SLASH)

  lemma EmptyHoldsNothing(c: u8)
    ensures !Contains(EMPTY, c)
  {
  }

  /** Four `add_all` calls in a row add the in-range bytes of all four strings. */
  lemma AddAll4Members(m: Bitmask, s1: seq<u8>, s2: seq<u8>, s3: seq<u8>, s4: seq<u8>, c: u8)
    ensures Contains(FoldAdd(FoldAdd(FoldAdd(FoldAdd(m, s1), s2), s3), s4), c) <==>
      Contains(m, c) || ((c in s1 || c in s2 || c in s3 || c in s4) && InRange(c))
  {
    var m1 := FoldAdd(m, s1);
    var m2 := FoldAdd(m1, s2);
    var m3 := FoldAdd(m2, s3);
    FoldAddMembers(m, s1, c);
    FoldAddMembers(m1, s2, c);
    FoldAddMembers(m2, s3, c);
    FoldAddMembers(m3, s4, c);
  }

  lemma UriComponentBytesInRange(c: u8)
    requires c in UPPERCASE || c in LOWERCASE || c in DIGITS || c in MARKS
    ensures InRange(c)
  {
  }

  lemma AddedBytesInRange(c: u8)
    requires c in URI_RESERVED || c in BRACKETS
    ensures InRange(c)
  {
  }

  /** `URI_COMPONENT` holds exactly the bytes of the four strings it is built from. */
  lemma UriComponentMembers(c: u8)
    ensures Contains(URI_COMPONENT, c) <==>
      c in UPPERCASE || c in LOWERCASE || c in DIGITS || c in MARKS
  {
    AddAll4Members(EMPTY, UPPERCASE, LOWERCASE, DIGITS, MARKS, c);
    if c in UPPERCASE || c in LOWERCASE || c in DIGITS || c in MARKS {
      UriComponentBytesInRange(c);
    }
  }

  lemma UppercaseRange(c: u8)
    ensures c in UPPERCASE <==> 0x41 <= c <= 0x5A
  {
    if 0x41 <= c <= 0x5A {
      assert UPPERCASE[c - 0x41] == c;
    }
  }

  lemma LowercaseRange(c: u8)
    ensures c in LOWERCASE <==> 0x61 <= c <= 0x7A
  {
    if 0x61 <= c <= 0x7A {
      assert LOWERCASE[c - 0x61] == c;
    }
  }

  lemma DigitsRange(c: u8)
    ensures c in DIGITS <==> 0x30 <= c <= 0x39
  {
    if 0x30 <= c <= 0x39 {
      assert DIGITS[c - 0x30] == c;
    }
  }

  /** `URI_COMPONENT` is exactly `A`-`Z`, `a`-`z`, `0`-`9` and ``-_.!~*'()``. */
  lemma UriComponentRanges(c: u8)
    ensures Contains(URI_COMPONENT, c) <==>
      0x41 <= c <= 0x5A || 0x61 <= c <= 0x7A || 0x30 <= c <= 0x39 || c in MARKS
  {
    UriComponentMembers(c);
    UppercaseRange(c);
    LowercaseRange(c);
    DigitsRange(c);
  }

  /** `URI` is `URI_COMPONENT` together with `;/?:@&=+$,#`. */
  lemma UriMembers(c: u8)
    ensures Contains(URI, c) <==> Contains(URI_COMPONENT, c) || c in URI_RESERVED
  {
    FoldAddMembers(URI_COMPONENT, URI_RESERVED, c);
    if c in URI_RESERVED {
      AddedBytesInRange(c);
    }
  }

  /** `RFC3986` is `URI` together with `[]`, without `!'()*`. */
  lemma Rfc3986Members(c: u8)
    ensures Contains(RFC3986, c) <==> (Contains(URI, c) || c in BRACKETS) && c !in RFC3986_DROPPED
  {
    if c in BRACKETS {
      AddedBytesInRange(c);
    }
    FoldAddMembers(URI, BRACKETS, c);
    FoldRemoveMembers(FoldAdd(URI, BRACKETS), RFC3986_DROPPED, c);
  }

  // Which of the bytes `%`, `+` and `/` the presets hold: `URI_COMPONENT` holds
  // none of them, `URI` and `RFC3986` hold `+` and `/` but not `%`. These are the
  // facts the round trip of `encode` and `decode` depends on. Each lemma takes the
  // byte as a parameter pinned by its `requires`, so that one lemma covers the
  // bytes it names and the proof goes through the membership lemmas above rather
  // than through evaluating the preset constants.

  lemma UriComponentLacks(c: u8)
    requires c == PERCENT || c == PLUS || c == SLASH
    ensures !Contains(URI_COMPONENT, c)
  {
    assert c !in UPPERCASE && c !in LOWERCASE && c !in DIGITS && c !in MARKS;
    UriComponentMembers(c);
  }

  lemma UriLacksPercent(c: u8)
    requires c == PERCENT
    ensures !Contains(URI, c)
  {
    UriComponentLacks(c);
    UriMembers(c);
  }

  lemma UriHolds(c: u8)
    requires c == PLUS || c == SLASH
    ensures Contains(URI, c)
  {
    UriMembers(c);
  }

  lemma Rfc3986LacksPercent(c: u8)
    requires c == PERCENT
    ensures !Contains(RFC3986, c)
  {
    UriLacksPercent(c);
    Rfc3986Members(c);
  }

  lemma Rfc3986Holds(c: u8)
    requires c == PLUS || c == SLASH
    ensures Contains(RFC3986, c)
  {
    UriHolds(c);
    Rfc3986Members(c);
  }

  /** `PATH` removes `/` from `URI_COMPONENT`, which never held it: the two are the same mask. */
  lemma PathIsUriComponent()
    ensures PATH == URI_COMPONENT
  {
    UriComponentLacks(SLASH);
    RemoveAbsent(URI_COMPONENT, SLASH);
  }

  /** No preset holds `%`; `URI` and `RFC3986` hold `+` and `/`, `URI_COMPONENT` and `PATH` hold neither. */
  lemma PresetSpecialBytes()
    ensures !Contains(URI_COMPONENT, PERCENT) && !Contains(URI, PERCENT)
    ensures !Contains(RFC3986, PERCENT) && !Contains(PATH, PERCENT)
    ensures Contains(URI, PLUS) && Contains(RFC3986, PLUS)
    ensures !Contains(URI_COMPONENT, PLUS) && !Contains(PATH, PLUS)
    ensures Contains(URI, SLASH) && Contains(RFC3986, SLASH)
    ensures !Contains(URI_COMPONENT, SLASH) && !Contains(PATH, SLASH)
  {
    PathIsUriComponent();
    UriComponentLacks(PERCENT);
    UriComponentLacks(PLUS);
    UriComponentLacks(SLASH);
    UriLacksPercent(PERCENT);
    UriHolds(PLUS);
    UriHolds(SLASH);
    Rfc3986LacksPercent(PERCENT);
    Rfc3986Holds(PLUS);
    Rfc3986Holds(SLASH);
  }
}
