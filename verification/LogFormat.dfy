/** The bytes of the block log: a header, then each packed block followed by its own position. */
module LogFormat {
  import opened Basics

  const NPOS := 0xFFFF_FFFF_FFFF_FFFF
  const MAX_VERSION := 3
  const BLKNUM_OFFSET := 14     // timestamp, producer and confirmed precede the previous id
  const MIN_PACKED := 46        // ... which is 32 bytes long

  // ---------------------------------------------------------------- words

  function Pow256(k: nat): nat { if k == 0 then 1 else 256 * Pow256(k - 1) }

  /** A k-byte little-endian word. */
  function Le(v: nat, k: nat): (s: Bytes)
    ensures |s| == k
  {
    if k == 0 then [] else [v % 256] + Le(v / 256, k - 1)
  }

  /** The value of the k-byte little-endian word at position p. */
  function Word(s: Bytes, p: nat, k: nat): int
    requires p + k <= |s|
    decreases k
  {
    if k == 0 then 0 else s[p] + 256 * Word(s, p + 1, k - 1)
  }

  function Be32(s: Bytes, p: nat): int
    requires p + 4 <= |s|
  {
    ((s[p] * 256 + s[p+1]) * 256 + s[p+2]) * 256 + s[p+3]
  }

  lemma {:induction false} WordSame(s: Bytes, p: nat, t: Bytes, q: nat, k: nat)
    requires p + k <= |s| && q + k <= |t|
    requires forall j | p <= j < p + k :: s[j] == t[j - p + q]
    ensures Word(s, p, k) == Word(t, q, k)
    decreases k
  {
    if k > 0 { WordSame(s, p + 1, t, q + 1, k - 1); }
  }

  /** Reading back a word that was written. */
  lemma {:induction false} WordLe(s: Bytes, p: nat, v: nat, k: nat)
    requires p + k <= |s| && v < Pow256(k)
    requires forall j | p <= j < p + k :: s[j] == Le(v, k)[j - p]
    ensures Word(s, p, k) == v
    decreases k
  {
    if k > 0 {
      var rest := Le(v / 256, k - 1);
      assert Le(v, k) == [v % 256] + rest && Pow256(k) == 256 * Pow256(k - 1);
      assert Word(s, p, k) == s[p] + 256 * Word(s, p + 1, k - 1);
      hide Le, Word, Pow256;
      assert forall j | p + 1 <= j < p + k :: s[j] == rest[j - (p + 1)];
      WordLe(s, p + 1, v / 256, k - 1);
    }
  }

  /** The bytes of a word weigh 1, 256, 65536 and so on. */
  ghost function Weighted(s: Bytes, p: nat, k: nat): int
    requires p + k <= |s|
  {
    if k == 0 then 0 else Weighted(s, p, k - 1) + s[p+k-1] * Pow256(k - 1)
  }

  lemma {:induction false} WordWeights(s: Bytes, p: nat, k: nat)
    requires p + k <= |s|
    ensures Word(s, p, k) == Weighted(s, p, k)
    decreases k
  {
    if k > 0 {
      WordWeights(s, p + 1, k - 1);
      WeightedFirst(s, p, k);
    }
  }

  lemma {:induction false} WeightedFirst(s: Bytes, p: nat, k: nat)
    requires 0 < k && p + k <= |s|
    ensures Weighted(s, p, k) == s[p] + 256 * Weighted(s, p + 1, k - 1)
    decreases k
  {
    if k == 1 {
      assert Pow256(0) == 1 && Weighted(s, p, 0) == 0;
    } else {
      WeightedFirst(s, p, k - 1);
      var b, w := s[p+k-1], Pow256(k - 2);
      assert Pow256(k - 1) == 256 * w && p + k - 1 == p + 1 + (k - 2);
      assert b * (256 * w) == 256 * (b * w);
    }
  }

  lemma {:induction false} LeBytes(v: nat, k: nat)
    ensures forall i | 0 <= i < k :: 0 <= Le(v, k)[i] < 256
    decreases k
  {
    if k > 0 { LeBytes(v / 256, k - 1); }
  }

  lemma WordSizes()
    ensures Pow256(4) == TWO32 && Pow256(8) == NPOS + 1
  {
    assert Pow256(1) == 256 && Pow256(2) == 0x1_0000 && Pow256(3) == 0x100_0000;
    assert Pow256(5) == 256 * Pow256(4) && Pow256(6) == 256 * Pow256(5) && Pow256(7) == 256 * Pow256(6);
  }

  // ---------------------------------------------------------------- the file

  /** Where entry i ends: at the next block, or at the end of the file. */
  function EntryEnd(file: Bytes, ps: seq<int>, i: int): int
    requires -1 <= i < |ps|
  {
    if i + 1 < |ps| then ps[i+1] else |file|
  }

  /** Entry i: block number first + i, packed, then the position at which it starts. */
  ghost predicate Entry(file: Bytes, first: nat, ps: seq<int>, i: nat)
    requires i < |ps|
  {
    && 0 <= ps[i] && ps[i] + MIN_PACKED + 8 <= EntryEnd(file, ps, i) <= |file|
    && Word(file, EntryEnd(file, ps, i) - 8, 8) == ps[i]
    && Be32(file, ps[i] + BLKNUM_OFFSET) + 1 == first + i
  }

  ghost predicate Header(file: Bytes, version: nat, first: nat, size: int) {
    && 1 <= version <= MAX_VERSION && 8 <= size <= |file| && Word(file, 0, 4) == version
    && (if version == 1 then first == 1
        else 16 <= size && Word(file, 4, 4) == first && Word(file, size - 8, 8) == NPOS)
  }

  /** A well-formed block log whose blocks start at the positions ps. */
  ghost predicate Format(file: Bytes, version: nat, first: nat, ps: seq<int>) {
    && 1 <= first && first + |ps| <= TWO32 && |file| < NPOS && (version == 1 ==> ps != [])
    && Header(file, version, first, EntryEnd(file, ps, -1))
    && forall i | 0 <= i < |ps| :: Entry(file, first, ps, i)
  }

  /** A packed block carries its number, less one, at a fixed place. */
  ghost predicate Packed(data: Bytes, num: nat) {
    |data| >= MIN_PACKED && Be32(data, BLKNUM_OFFSET) + 1 == num
  }

  lemma FormatAppend(file: Bytes, version: nat, first: nat, ps: seq<int>, data: Bytes)
    requires Format(file, version, first, ps) && Packed(data, first + |ps|)
    requires first + |ps| < TWO32 && |file| + |data| + 8 < NPOS
    ensures Format(file + data + Le(|file|, 8), version, first, ps + [|file|])
  {
    hide Word, Be32, Le, Entry, Header;
    var longer, ps' := file + data + Le(|file|, 8), ps + [|file|];
    assert Extends(longer, file) && EntryEnd(longer, ps', -1) == EntryEnd(file, ps, -1);
    hide Extends;
    HeaderKept(longer, file, version, first, EntryEnd(file, ps, -1));
    forall i | 0 <= i < |ps'| ensures Entry(longer, first, ps', i) {
      if i < |ps| { EntryKept(longer, file, first, ps, i); } else { LastEntry(file, data, first, ps); }
    }
  }

  ghost predicate Extends(longer: Bytes, file: Bytes) {
    |file| <= |longer| && forall j | 0 <= j < |file| :: longer[j] == file[j]
  }

  lemma WordKept(longer: Bytes, file: Bytes, p: nat, k: nat)
    requires Extends(longer, file) && p + k <= |file|
    ensures Word(longer, p, k) == Word(file, p, k)
  {
    WordSame(longer, p, file, p, k);
  }

  lemma NumberKept(longer: Bytes, file: Bytes, p: nat)
    requires Extends(longer, file) && p + 4 <= |file|
    ensures Be32(longer, p) == Be32(file, p)
  {
  }

  lemma HeaderKept(longer: Bytes, file: Bytes, version: nat, first: nat, size: int)
    requires Extends(longer, file) && Header(file, version, first, size)
    ensures Header(longer, version, first, size)
  {
    hide Word, Extends;
    WordKept(longer, file, 0, 4);
    WordKept(longer, file, 4, 4);
    WordKept(longer, file, size - 8, 8);
    assert |file| <= |longer| by { ExtendsLength(longer, file); }
  }

  lemma ExtendsLength(longer: Bytes, file: Bytes)
    requires Extends(longer, file)
    ensures |file| <= |longer|
  {
  }

  lemma EntryKept(longer: Bytes, file: Bytes, first: nat, ps: seq<int>, i: nat)
    requires Extends(longer, file) && i < |ps| && Entry(file, first, ps, i)
    ensures Entry(longer, first, ps + [|file|], i)
  {
    hide Word, Be32, Extends;
    ExtendsLength(longer, file);
    var end := EntryEnd(file, ps, i);
    assert EntryEnd(longer, ps + [|file|], i) == end;
    WordKept(longer, file, end - 8, 8);
    NumberKept(longer, file, ps[i] + BLKNUM_OFFSET);
  }

  lemma LastEntry(file: Bytes, data: Bytes, first: nat, ps: seq<int>)
    requires Packed(data, first + |ps|) && |file| < NPOS
    ensures Entry(file + data + Le(|file|, 8), first, ps + [|file|], |ps|)
  {
    hide Word, Le, Be32, Entry;
    LastNumber(file, data, Le(|file|, 8));
    LastWord(file + data, |file|);
    EntryLast(file + data + Le(|file|, 8), first, ps + [|file|]);
  }

  lemma EntryLast(file: Bytes, first: nat, ps: seq<int>)
    requires ps != []
    requires var pos := ps[|ps|-1];
             && 0 <= pos && pos + MIN_PACKED + 8 <= |file| && Word(file, |file| - 8, 8) == pos
             && Be32(file, pos + BLKNUM_OFFSET) + 1 == first + |ps| - 1
    ensures Entry(file, first, ps, |ps| - 1)
  {
  }

  lemma LastNumber(file: Bytes, data: Bytes, word: Bytes)
    requires |data| >= MIN_PACKED
    ensures Be32(file + data + word, |file| + BLKNUM_OFFSET) == Be32(data, BLKNUM_OFFSET)
  {
    var longer, p := file + data + word, |file| + BLKNUM_OFFSET;
    assert longer[p] == data[14] && longer[p+1] == data[15] && longer[p+2] == data[16] && longer[p+3] == data[17];
  }

  lemma LastWord(s: Bytes, v: nat)
    requires v < NPOS + 1
    ensures Word(s + Le(v, 8), |s|, 8) == v
  {
    WordSizes();
    hide Word, Le, Pow256;
    var word, p := Le(v, 8), |s|;
    var longer := s + word;
    assert forall j | p <= j < p + 8 :: longer[j] == word[j - p];
    WordLe(longer, p, v, 8);
  }

  /** The header that reset writes: version, first number, chain context and the totem. */
  function NewHeader(first: nat, context: Bytes): Bytes {
    Le(MAX_VERSION, 4) + Le(first, 4) + context + Le(NPOS, 8)
  }

  lemma FormatNew(first: nat, context: Bytes)
    requires 1 <= first < TWO32 && |context| + 16 < NPOS
    ensures Format(NewHeader(first, context), MAX_VERSION, first, [])
  {
    WordSizes();
    hide Word, Le, Pow256;
    var v, f, c := Le(MAX_VERSION, 4), Le(first, 4), Le(NPOS, 8);
    var file := NewHeader(first, context);
    var p := 8 + |context|;
    assert file == v + f + context + c;
    assert forall j | 0 <= j < 4 :: file[j] == v[j - 0];
    WordLe(file, 0, MAX_VERSION, 4);
    assert forall j | 4 <= j < 4 + 4 :: file[j] == f[j - 4];
    WordLe(file, 4, first, 4);
    LastWord(v + f + context, NPOS);
  }

  /** The header that reset writes: version 3, the first block number, the context, and the end of the
      header marked by an invalid position. */
  lemma HeaderLayout(first: nat, context: Bytes)
    requires 1 <= first < TWO32
    ensures var file := NewHeader(first, context);
            && |file| == 16 + |context| && Word(file, 0, 4) == 3 && Word(file, 4, 4) == first
            && file[8..8 + |context|] == context && Word(file, 8 + |context|, 8) == 0xFFFF_FFFF_FFFF_FFFF
  {
    var file := NewHeader(first, context);
    WordSizes();
    hide Le, Word, Pow256, NewHeader;
    HeaderParts(first, context, file);
    WordLe(file, 0, 3, 4);
    WordLe(file, 4, first, 4);
    WordLe(file, 8 + |context|, NPOS, 8);
  }

  lemma HeaderParts(first: nat, context: Bytes, file: Bytes)
    requires file == NewHeader(first, context)
    ensures |file| == 16 + |context| && file[8..8 + |context|] == context
    ensures forall j | 0 <= j < 4 :: file[j] == Le(3, 4)[j - 0] && file[4 + j] == Le(first, 4)[j]
    ensures forall j | 8 + |context| <= j < 16 + |context| :: file[j] == Le(NPOS, 8)[j - (8 + |context|)]
  {
    hide Le;
    assert file == Le(MAX_VERSION, 4) + Le(first, 4) + context + Le(NPOS, 8);
  }
}
