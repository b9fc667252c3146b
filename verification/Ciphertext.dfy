/** AES counter mode with random access: the 16-byte counter, its increment, and
    the byte-by-byte encryption that starts at any offset. AES under a fixed key
    is an arbitrary function from blocks to blocks. */
module Ciphertext {
  import opened Arithmetic

  type Byte = x: int | 0 <= x < 256

  type Block = s: seq<Byte> | |s| == 16 witness [0, 0, 0, 0, 0, 0, 0, 0, 0, 0, 0, 0, 0, 0, 0, 0]

  const WORD: int := 0x1_0000_0000

  // ---------- exclusive or ----------

  /** The bitwise exclusive or of two numbers. */
  function Xor(a: nat, b: nat): nat
    decreases a + b
  {
    if a == 0 && b == 0 then 0 else (a + b) % 2 + 2 * Xor(a / 2, b / 2)
  }

  lemma XorStep(a: nat, b: nat)
    ensures Xor(a, b) == (a + b) % 2 + 2 * Xor(a / 2, b / 2)
  {
  }

  lemma {:induction false} XorBound(a: nat, b: nat, k: nat)
    requires a < Pow2(k) && b < Pow2(k)
    ensures Xor(a, b) < Pow2(k)
  {
    if k > 0 {
      XorBound(a / 2, b / 2, k - 1);
      XorStep(a, b);
    }
  }

  /** Each bit of the result is the sum of both bits without its carry. */
  lemma {:induction false} XorBits(a: nat, b: nat, k: nat)
    ensures Bit(Xor(a, b), k) == (Bit(a, k) + Bit(b, k)) % 2
  {
    hide Xor, Bit;
    XorStep(a, b);
    BitIs(a, k);
    BitIs(b, k);
    BitIs(Xor(a, b), k);
    if k == 0 {
      assert (a % 2 + b % 2) % 2 == (a + b) % 2;
    } else {
      XorBits(a / 2, b / 2, k - 1);
    }
  }

  lemma {:induction false} BitIs(a: nat, k: nat)
    ensures Bit(a, k) == if k == 0 then a % 2 else Bit(a / 2, k - 1)
  {
    assert Shr(a, 1) == Shr(a, 0) / 2 == a / 2;
    if k > 0 { ShrShr(a, 1, k - 1); }
  }

  /** Bytes combine to a byte, bit by bit. */
  function XorByte(a: Byte, b: Byte): (c: Byte)
    ensures forall k: nat :: k < 8 ==> Bit(c, k) == (Bit(a, k) + Bit(b, k)) % 2
  {
    XorBound(a, b, 8);
    assert forall k: nat :: k < 8 ==> Bit(Xor(a, b), k) == (Bit(a, k) + Bit(b, k)) % 2 by {
      forall k: nat | k < 8 ensures Bit(Xor(a, b), k) == (Bit(a, k) + Bit(b, k)) % 2 {
        XorBits(a, b, k);
      }
    }
    Xor(a, b)
  }

  /** A second application of the same number cancels the first. */
  lemma {:induction false} XorTwice(a: nat, b: nat)
    ensures Xor(Xor(a, b), b) == a
    decreases a + b
  {
    hide Xor;
    if a + b == 0 {
      XorZero(0);
    } else {
      XorTwice(a / 2, b / 2);
      XorStep(a, b);
      XorStep(Xor(a, b), b);
      Parity(a, b, Xor(a, b), Xor(a / 2, b / 2));
    }
  }

  lemma Parity(a: nat, b: nat, x: nat, h: nat)
    requires x == (a + b) % 2 + 2 * h
    ensures (x + b) % 2 == a % 2 && x / 2 == h
  {
  }

  lemma {:induction false} XorZero(a: nat)
    ensures Xor(a, 0) == a
  {
    if a > 0 {
      XorZero(a / 2);
    }
  }

  /** Combining numbers that share no bit position adds them. */
  lemma {:induction false} XorDisjoint(a: nat, b: nat, k: nat)
    requires b < Pow2(k)
    ensures Xor(a * Pow2(k), b) == a * Pow2(k) + b
  {
    if k == 0 {
      XorZero(a);
    } else {
      assert b / 2 < Pow2(k - 1);
      XorDisjoint(a, b / 2, k - 1);
      var high := a * Pow2(k - 1);
      DoubleTimes(a, Pow2(k - 1));
      XorStep(2 * high, b);
      assert Pow2(k) == 2 * Pow2(k - 1);
      hide Xor, Pow2;
      Evenness(2 * high, b, high);
      assert 2 * (b / 2) + b % 2 == b;
    }
  }

  lemma Evenness(n: nat, b: nat, high: nat)
    requires n == 2 * high
    ensures n / 2 == high && (n + b) % 2 == b % 2
  {
  }

  lemma DoubleTimes(a: int, p: int)
    ensures a * (2 * p) == 2 * (a * p)
  {
  }

  // ---------- big-endian words ----------

  /** The four bytes from i on as a big-endian word, put together bit by bit. */
  function GetU32(s: seq<Byte>, i: nat): nat
    requires i + 4 <= |s|
  {
    FromBytes(s[i], s[i + 1], s[i + 2], s[i + 3])
  }

  function FromBytes(a: nat, b: nat, c: nat, d: nat): nat {
    Xor(Xor(Xor(a * 0x1000000, b * 0x10000), c * 0x100), d)
  }

  lemma FromBytesIsSum(a: nat, b: nat, c: nat, d: nat)
    requires b < 0x100 && c < 0x100 && d < 0x100
    ensures FromBytes(a, b, c, d) == a * 0x1000000 + b * 0x10000 + c * 0x100 + d
  {
    hide Xor;
    assert Pow2(8) == 0x100 && Pow2(16) == 0x10000 && Pow2(24) == 0x1000000 by { Powers(); }
    hide Pow2;
    XorDisjoint(a, b * 0x10000, 24);
    XorDisjoint(a * 0x100 + b, c * 0x100, 16);
    XorDisjoint(a * 0x10000 + b * 0x100 + c, d, 8);
  }

  lemma Powers()
    ensures Pow2(8) == 0x100 && Pow2(16) == 0x10000 && Pow2(24) == 0x1000000
  {
    Pow2Add(8, 8);
    Pow2Add(16, 8);
  }

  lemma GetU32IsSum(s: seq<Byte>, i: nat)
    requires i + 4 <= |s|
    ensures GetU32(s, i) == (s[i] as int) * 0x1000000 + (s[i + 1] as int) * 0x10000
                          + (s[i + 2] as int) * 0x100 + s[i + 3]
    ensures GetU32(s, i) < WORD
  {
    hide FromBytes;
    FromBytesIsSum(s[i], s[i + 1], s[i + 2], s[i + 3]);
  }

  /** The bytes of a word's lowest 32 bits. */
  function WordBytes(v: nat): (s: seq<Byte>)
    ensures |s| == 4
  {
    [v / 0x1000000 % 256, v / 0x10000 % 256, v / 0x100 % 256, v % 256]
  }

  /** Storing a word keeps its lowest 32 bits. */
  lemma WordBytesValue(v: nat)
    ensures GetU32(WordBytes(v), 0) == v % WORD
  {
    GetU32IsSum(WordBytes(v), 0);
    hide GetU32;
    Digits(v);
  }

  lemma Digits(v: nat)
    ensures v / 0x1000000 % 256 * 0x1000000 + v / 0x10000 % 256 * 0x10000
          + v / 0x100 % 256 * 0x100 + v % 256 == v % WORD
  {
    var a, b, c := v / 0x1000000, v / 0x10000, v / 0x100;
    Digit(v, c, 0x100);
    DropByte(v, b, c, 0x100, 0x10000);
    DropByte(v, a, b, 0x10000, 0x1000000);
    DropByte(v, v / WORD, a, 0x1000000, WORD);
  }

  lemma DropByte(v: nat, hi: nat, lo: nat, p: nat, q: nat)
    requires p == 0x100 || p == 0x10000 || p == 0x1000000
    requires q == 256 * p && lo == v / p && hi == v / q
    ensures lo == 256 * hi + lo % 256
  {
  }

  lemma Digit(v: nat, c: nat, p: nat)
    requires p == 0x100 && c == v / p
    ensures v == p * c + v % 256
  {
  }

  // ---------- the counter ----------

  /** The word i of a counter block. */
  function Word(s: Block, i: nat): (w: nat)
    requires i < 4
    ensures w < WORD
  {
    GetU32IsSum(s, 4 * i);
    GetU32(s, 4 * i)
  }

  /** The block with word i replaced by the lowest 32 bits of v. */
  function PutWord(s: Block, i: nat, v: nat): Block
    requires i < 4
  {
    s[..4 * i] + WordBytes(v) + s[4 * i + 4..]
  }

  lemma PutWordWords(s: Block, i: nat, v: nat, j: nat)
    requires i < 4 && j < 4
    ensures Word(PutWord(s, i, v), j) == if i == j then v % WORD else Word(s, j)
  {
    WordBytesValue(v);
    hide FromBytes;
  }

  /** Blocks with the same words are the same. */
  lemma WordsDetermine(s: Block, t: Block)
    requires forall i :: 0 <= i < 4 ==> Word(s, i) == Word(t, i)
    ensures s == t
  {
    hide FromBytes;
    forall i | 0 <= i < 4
      ensures s[4 * i] == t[4 * i] && s[4 * i + 1] == t[4 * i + 1]
           && s[4 * i + 2] == t[4 * i + 2] && s[4 * i + 3] == t[4 * i + 3]
    {
      assert Word(s, i) == Word(t, i);
      GetU32IsSum(s, 4 * i);
      GetU32IsSum(t, 4 * i);
      BytesDetermine(s[4 * i], s[4 * i + 1], s[4 * i + 2], s[4 * i + 3],
                     t[4 * i], t[4 * i + 1], t[4 * i + 2], t[4 * i + 3]);
    }
    forall k | 0 <= k < 16 ensures s[k] == t[k] {
      assert k == 4 * (k / 4) + k % 4;
    }
  }

  lemma BytesDetermine(a: Byte, b: Byte, c: Byte, d: Byte, p: Byte, q: Byte, r: Byte, s: Byte)
    requires (a as int) * 0x1000000 + (b as int) * 0x10000 + (c as int) * 0x100 + d
          == (p as int) * 0x1000000 + (q as int) * 0x10000 + (r as int) * 0x100 + s
    ensures a == p && b == q && c == r && d == s
  {
  }

  /** The counter block for block number val: the first 12 bytes of iv, then val. */
  function Set(iv: Block, val: nat): Block {
    PutWord(iv, 3, val)
  }

  /** The increment of the code: word by word from the last one, going on to the
      word before only after an overflow. */
  function Inc(s: Block): Block {
    IncFrom(s, 3)
  }

  function IncFrom(s: Block, i: nat): Block
    requires i < 4
    decreases i
  {
    var c := (Word(s, i) + 1) % WORD;
    var t := PutWord(s, i, c);
    if i == 0 || c != 0 then t else IncFrom(t, i - 1)
  }

  /** The block read as one 128-bit big-endian number. */
  function BigEndian(s: seq<Byte>): nat {
    if |s| == 0 then 0 else 256 * BigEndian(s[..|s| - 1]) + s[|s| - 1]
  }

  const TOP: int := 0x1_0000_0000_0000_0000_0000_0000_0000_0000

  /** A block's value is made of its words. */
  lemma BigEndianWords(s: Block)
    ensures BigEndian(s)
         == ((Word(s, 0) * WORD + Word(s, 1)) * WORD + Word(s, 2)) * WORD + Word(s, 3)
  {
    hide Word;
    LastWord(s, 3);
    LastWord(s, 2);
    LastWord(s, 1);
    LastWord(s, 0);
    assert s[..16] == s && s[..0] == [];
  }

  lemma LastWord(s: Block, i: nat)
    requires i < 4
    ensures BigEndian(s[..4 * i + 4]) == BigEndian(s[..4 * i]) * WORD + Word(s, i)
  {
    hide FromBytes;
    GetU32IsSum(s, 4 * i);
    LastByte(s, 4 * i);
    LastByte(s, 4 * i + 1);
    LastByte(s, 4 * i + 2);
    LastByte(s, 4 * i + 3);
  }

  lemma LastByte(s: seq<Byte>, k: nat)
    requires k < |s|
    ensures BigEndian(s[..k + 1]) == 256 * BigEndian(s[..k]) + s[k]
  {
    assert s[..k + 1][..k] == s[..k];
  }

  /** The value of the words 0 to i. */
  function Upto(s: Block, i: nat): nat
    requires i < 4
  {
    if i == 0 then Word(s, 0) else Upto(s, i - 1) * WORD + Word(s, i)
  }

  function Cap(i: nat): (c: nat)
    ensures c > 0
  {
    if i == 0 then WORD else Cap(i - 1) * WORD
  }

  lemma {:induction false} UptoBelow(s: Block, i: nat)
    requires i < 4
    ensures Upto(s, i) < Cap(i)
  {
    if i > 0 {
      UptoBelow(s, i - 1);
    }
  }

  lemma {:induction false} UptoSame(s: Block, t: Block, i: nat)
    requires i < 4 && forall j :: 0 <= j <= i ==> Word(s, j) == Word(t, j)
    ensures Upto(s, i) == Upto(t, i)
  {
    if i > 0 {
      UptoSame(s, t, i - 1);
    }
  }

  lemma {:induction false} IncFromRest(s: Block, i: nat, j: nat)
    requires i < j < 4
    ensures Word(IncFrom(s, i), j) == Word(s, j)
    decreases i
  {
    hide Word, PutWord;
    PutWordWords(s, i, (Word(s, i) + 1) % WORD, j);
    if i > 0 {
      IncFromRest(PutWord(s, i, (Word(s, i) + 1) % WORD), i - 1, j);
    }
  }

  /** Carrying from word i leftwards adds one to the number made of the words 0 to
      i, which wraps around at its end. */
  lemma {:induction false} IncFromValue(s: Block, i: nat)
    requires i < 4
    ensures Upto(IncFrom(s, i), i) == if Upto(s, i) + 1 == Cap(i) then 0 else Upto(s, i) + 1
    decreases i
  {
    hide Word, PutWord;
    var c := (Word(s, i) + 1) % WORD;
    var t := PutWord(s, i, c);
    forall j | 0 <= j <= i ensures Word(t, j) == if j == i then c else Word(s, j) {
      PutWordWords(s, i, c, j);
    }
    Wraps(Word(s, i), Word(t, i), WORD);
    if i > 0 {
      UptoSame(t, s, i - 1);
      UptoBelow(s, i - 1);
      if Word(s, i) + 1 == WORD {
        IncFromValue(t, i - 1);
        IncFromRest(t, i - 1, i);
      }
    }
  }

  /** The increment adds one to the 128-bit number, modulo 2^128. */
  lemma IncValue(s: Block)
    ensures BigEndian(Inc(s)) == (BigEndian(s) + 1) % TOP && BigEndian(s) < TOP
  {
    IncFromValue(s, 3);
    UptoBelow(s, 3);
    UptoIsValue(s);
    UptoIsValue(Inc(s));
    CapTop();
    hide *;
    Wraps(BigEndian(s), BigEndian(Inc(s)), TOP);
  }

  lemma Wraps(v: nat, r: nat, m: nat)
    requires v < m && r == if v + 1 == m then 0 else v + 1
    ensures r == (v + 1) % m
  {
  }

  lemma CapTop()
    ensures Cap(3) == TOP && Cap(2) * WORD == TOP
  {
    assert Cap(0) == WORD && Cap(1) == WORD * WORD && Cap(2) == WORD * WORD * WORD;
  }

  lemma UptoIsValue(s: Block)
    ensures BigEndian(s) == Upto(s, 3)
  {
    BigEndianWords(s);
    hide Word, BigEndian;
    assert Upto(s, 1) == Upto(s, 0) * WORD + Word(s, 1);
    assert Upto(s, 2) == Upto(s, 1) * WORD + Word(s, 2);
  }

  /** Blocks with the same value are the same. */
  lemma ValueDetermines(s: Block, t: Block)
    requires BigEndian(s) == BigEndian(t)
    ensures s == t
  {
    UptoIsValue(s);
    UptoIsValue(t);
    UptoDetermines(s, t, 3);
    WordsDetermine(s, t);
  }

  lemma {:induction false} UptoDetermines(s: Block, t: Block, i: nat)
    requires i < 4 && Upto(s, i) == Upto(t, i)
    ensures forall j :: 0 <= j <= i ==> Word(s, j) == Word(t, j)
  {
    hide Word;
    if i > 0 {
      DigitsSame(Upto(s, i - 1), Word(s, i), Upto(t, i - 1), Word(t, i));
      UptoDetermines(s, t, i - 1);
    }
  }

  lemma DigitsSame(a: nat, b: nat, c: nat, d: nat)
    requires a * WORD + b == c * WORD + d && b < WORD && d < WORD
    ensures a == c && b == d
  {
  }

  // ---------- counters of whole runs ----------

  /** The counter after k increments. */
  function IncTimes(s: Block, k: nat): Block {
    if k == 0 then s else Inc(IncTimes(s, k - 1))
  }

  lemma {:induction false} IncTimesValue(s: Block, k: nat)
    ensures BigEndian(IncTimes(s, k)) == (BigEndian(s) + k) % TOP
  {
    hide Inc, BigEndian;
    if k == 0 {
      IncValue(s);
    } else {
      IncTimesValue(s, k - 1);
      IncValue(IncTimes(s, k - 1));
    }
  }

  /** The part of iv that a counter block keeps, its first 12 bytes, as a number. */
  function Prefix(iv: Block): nat {
    BigEndian(iv[..12])
  }

  lemma PrefixWords(iv: Block)
    ensures Prefix(iv) == Upto(iv, 2)
  {
    hide Word, BigEndian;
    assert Upto(iv, 1) == Upto(iv, 0) * WORD + Word(iv, 1) && Upto(iv, 0) == Word(iv, 0);
    LastWord(iv, 2);
    LastWord(iv, 1);
    LastWord(iv, 0);
    assert iv[..0] == [];
    NothingIsZero();
  }

  lemma NothingIsZero()
    ensures BigEndian([]) == 0
  {
  }

  lemma SetValue(iv: Block, val: nat)
    ensures BigEndian(Set(iv, val)) == Prefix(iv) * WORD + val % WORD
    ensures Prefix(iv) < Cap(2)
  {
    PrefixWords(iv);
    hide Word, PutWord, BigEndian, Prefix;
    forall j | 0 <= j < 4 ensures Word(Set(iv, val), j) == if j == 3 then val % WORD else Word(iv, j) {
      PutWordWords(iv, 3, val, j);
    }
    UptoIsValue(Set(iv, val));
    UptoSame(Set(iv, val), iv, 2);
    UptoBelow(iv, 2);
  }

  /** One increment moves from a block number to the next exactly when the 32-bit
      block number does not overflow. */
  lemma IncMatchesSet(iv: Block, i: nat)
    ensures Inc(Set(iv, i)) == Set(iv, i + 1) <==> (i + 1) % WORD != 0
  {
    hide Inc, Set, BigEndian, Cap, Prefix;
    IncValue(Set(iv, i));
    SetValue(iv, i);
    SetValue(iv, i + 1);
    CapTop();
    if BigEndian(Inc(Set(iv, i))) == BigEndian(Set(iv, i + 1)) {
      ValueDetermines(Inc(Set(iv, i)), Set(iv, i + 1));
    }
    OneStep(Prefix(iv), i, Cap(2));
  }

  lemma OneStep(p: nat, i: nat, cap: nat)
    requires p < cap && cap * WORD == TOP
    ensures (p * WORD + i % WORD + 1) % TOP == p * WORD + (i + 1) % WORD <==> (i + 1) % WORD != 0
  {
  }

  /** Counting j steps on from block number b meets the counter that starts from
      block number 0 exactly when b has no bits at positions 32 to 127. */
  lemma CountingMeets(iv: Block, b: nat, j: nat)
    ensures IncTimes(Set(iv, b), j) == IncTimes(Set(iv, 0), b + j) <==> b / WORD % Cap(2) == 0
  {
    hide Inc, IncTimes, Set, BigEndian, Cap, Prefix;
    IncTimesValue(Set(iv, b), j);
    IncTimesValue(Set(iv, 0), b + j);
    SetValue(iv, b);
    SetValue(iv, 0);
    CapTop();
    if BigEndian(IncTimes(Set(iv, b), j)) == BigEndian(IncTimes(Set(iv, 0), b + j)) {
      ValueDetermines(IncTimes(Set(iv, b), j), IncTimes(Set(iv, 0), b + j));
    }
    ManySteps(Prefix(iv), b, j, Cap(2));
  }

  lemma ManySteps(p: nat, b: nat, j: nat, cap: nat)
    requires p < cap && cap * WORD == TOP
    ensures (p * WORD + b % WORD + j) % TOP == (p * WORD + b + j) % TOP <==> b / WORD % cap == 0
  {
    var q := b / WORD;
    var x := p * WORD + b % WORD + j;
    assert p * WORD + b + j == x + q * WORD;
  }

  // ---------- encryption from an offset ----------

  /** The byte at a position of the key stream that starts from a counter. */
  function KeyAt(aes: Block -> Block, start: Block, pos: nat): Byte {
    aes(IncTimes(start, pos / 16))[pos % 16]
  }

  /** The key byte for position k of a message that starts at a byte offset: the
      code sets the counter to the offset's block and increments from there. */
  function KeyByte(aes: Block -> Block, iv: Block, offset: nat, k: nat): Byte {
    KeyAt(aes, Set(iv, offset / 16), offset % 16 + k)
  }

  function Encrypt(aes: Block -> Block, iv: Block, offset: nat, data: seq<Byte>): (out: seq<Byte>)
    ensures |out| == |data|
  {
    seq(|data|, k requires 0 <= k < |data| => XorByte(data[k], KeyByte(aes, iv, offset, k)))
  }

  /** Decryption is encryption again, at any offset. */
  lemma EncryptTwice(aes: Block -> Block, iv: Block, offset: nat, data: seq<Byte>)
    ensures Encrypt(aes, iv, offset, Encrypt(aes, iv, offset, data)) == data
  {
    hide Xor, KeyByte;
    forall k | 0 <= k < |data|
      ensures Encrypt(aes, iv, offset, Encrypt(aes, iv, offset, data))[k] == data[k]
    {
      XorTwice(data[k], KeyByte(aes, iv, offset, k));
    }
  }

  /** Position k of a message at an offset is combined with byte (offset + k) mod 16 of the
      encrypted counter: the first 12 bytes of iv, then the block number of the offset,
      counted on from there as one 128-bit number. */
  lemma KeyStream(aes: Block -> Block, iv: Block, offset: nat, data: seq<Byte>, k: nat, counter: Block)
    requires k < |data|
    requires BigEndian(counter) == (Prefix(iv) * WORD + offset / 16 % WORD + (offset % 16 + k) / 16) % TOP
    ensures Encrypt(aes, iv, offset, data)[k] == XorByte(data[k], aes(counter)[(offset + k) % 16])
  {
    hide *;
    EncryptAt(aes, iv, offset, data, k);
    CounterAfter(iv, offset / 16, (offset % 16 + k) / 16, counter);
    SamePosition(offset, k);
  }

  lemma EncryptAt(aes: Block -> Block, iv: Block, offset: nat, data: seq<Byte>, k: nat)
    requires k < |data|
    ensures var pos := offset % 16 + k;
      Encrypt(aes, iv, offset, data)[k] == XorByte(data[k], aes(IncTimes(Set(iv, offset / 16), pos / 16))[pos % 16])
  {
    hide Set, IncTimes, XorByte, Inc;
  }

  lemma CounterAfter(iv: Block, block: nat, steps: nat, counter: Block)
    requires BigEndian(counter) == (Prefix(iv) * WORD + block % WORD + steps) % TOP
    ensures IncTimes(Set(iv, block), steps) == counter
  {
    hide *;
    SetValue(iv, block);
    IncTimesValue(Set(iv, block), steps);
    ValueDetermines(IncTimes(Set(iv, block), steps), counter);
  }

  lemma SamePosition(offset: nat, k: nat)
    ensures (offset % 16 + k) % 16 == (offset + k) % 16
  {
  }

  /** So zeros are encrypted to the bytes of the encrypted counters themselves. */
  lemma ZerosEncrypted(aes: Block -> Block, iv: Block, offset: nat, data: seq<Byte>, k: nat, counter: Block)
    requires k < |data| && data[k] == 0
    requires BigEndian(counter) == (Prefix(iv) * WORD + offset / 16 % WORD + (offset % 16 + k) / 16) % TOP
    ensures Encrypt(aes, iv, offset, data)[k] == aes(counter)[(offset + k) % 16]
  {
    var key := aes(counter)[(offset + k) % 16];
    XorCommutes(0, key);
    XorZero(key);
    hide BigEndian, Prefix, Xor, Encrypt;
    KeyStream(aes, iv, offset, data, k, counter);
  }

  /** Random access: for every offset below 16 * 2^32, and any length, encrypting a
      slice at its offset gives the slice of the encrypted whole. */
  lemma RandomAccess(aes: Block -> Block, iv: Block, data: seq<Byte>, offset: nat, length: nat)
    requires offset + length <= |data| && offset < 16 * WORD
    ensures Encrypt(aes, iv, offset, data[offset..offset + length])
         == Encrypt(aes, iv, 0, data)[offset..offset + length]
  {
    hide XorByte, KeyByte;
    forall k | 0 <= k < length
      ensures KeyByte(aes, iv, offset, k) == KeyByte(aes, iv, 0, offset + k)
    {
      KeyByteMoves(aes, iv, offset, k);
    }
    var part, whole := Encrypt(aes, iv, offset, data[offset..offset + length]), Encrypt(aes, iv, 0, data);
    forall k | 0 <= k < length ensures part[k] == whole[offset + k] {
      assert KeyByte(aes, iv, offset, k) == KeyByte(aes, iv, 0, offset + k);
    }
  }

  lemma KeyByteMoves(aes: Block -> Block, iv: Block, offset: nat, k: nat)
    requires offset < 16 * WORD
    ensures KeyByte(aes, iv, offset, k) == KeyByte(aes, iv, 0, offset + k)
  {
    Position(offset, k);
    CapTop();
    hide Set, IncTimes, Cap;
    assert offset / 16 / WORD == 0;
    CountingMeets(iv, offset / 16, (offset % 16 + k) / 16);
  }

  lemma Position(offset: nat, k: nat)
    ensures (offset + k) / 16 == offset / 16 + (offset % 16 + k) / 16
    ensures (offset + k) % 16 == (offset % 16 + k) % 16
  {
  }

  /** Beyond that offset the counters part: with AES one-to-one under its key, a
      whole block is encrypted in the same way at its own offset and within the
      whole exactly when its block number has no bits at positions 32 to 127. */
  lemma RandomAccessBlock(aes: Block -> Block, iv: Block, data: seq<Byte>, b: nat)
    requires forall s: Block, t: Block :: aes(s) == aes(t) ==> s == t
    requires 16 * b + 16 <= |data|
    ensures Encrypt(aes, iv, 16 * b, data[16 * b..16 * b + 16])
         == Encrypt(aes, iv, 0, data)[16 * b..16 * b + 16]
       <==> b / WORD % Cap(2) == 0
  {
    hide Cap, IncTimes, Set, KeyByte, XorByte;
    var own, whole := aes(IncTimes(Set(iv, b), 0)), aes(IncTimes(Set(iv, 0), b));
    CountingMeets(iv, b, 0);
    assert own == whole <==> b / WORD % Cap(2) == 0;
    var x, y := Encrypt(aes, iv, 16 * b, data[16 * b..16 * b + 16]), Encrypt(aes, iv, 0, data);
    forall k | 0 <= k < 16
      ensures x[k] == XorByte(data[16 * b + k], own[k])
      ensures y[16 * b + k] == XorByte(data[16 * b + k], whole[k])
    {
      BlockKey(aes, iv, b, 16 * b, k);
    }
    SameKeys(data[16 * b..16 * b + 16], own, whole, x, y[16 * b..16 * b + 16]);
  }

  /** Key blocks that encrypt some data in the same way are the same. */
  lemma SameKeys(data: Block, a: Block, b: Block, x: Block, y: Block)
    requires forall k :: 0 <= k < 16 ==> x[k] == XorByte(data[k], a[k]) && y[k] == XorByte(data[k], b[k])
    ensures x == y <==> a == b
  {
    hide XorByte;
    if x == y {
      forall k | 0 <= k < 16 ensures a[k] == b[k] {
        assert x[k] == y[k];
        XorCancels(data[k], a[k], b[k]);
      }
    }
  }

  lemma BlockKey(aes: Block -> Block, iv: Block, b: nat, o: nat, k: nat)
    requires o == 16 * b && k < 16
    ensures KeyByte(aes, iv, o, k) == aes(IncTimes(Set(iv, b), 0))[k]
    ensures KeyByte(aes, iv, 0, o + k) == aes(IncTimes(Set(iv, 0), b))[k]
  {
    hide Set, IncTimes, KeyAt;
    BlockPosition(b, o, k);
    KeyAtBlock(aes, Set(iv, b), 0, k);
    KeyAtBlock(aes, Set(iv, 0), b, k);
  }

  lemma KeyAtBlock(aes: Block -> Block, start: Block, b: nat, k: nat)
    requires k < 16
    ensures KeyAt(aes, start, 16 * b + k) == aes(IncTimes(start, b))[k]
  {
    hide KeyAt, IncTimes;
    BlockPosition(b, 16 * b, k);
    KeyAtIs(aes, start, 16 * b + k, b, k);
  }

  lemma KeyAtIs(aes: Block -> Block, start: Block, p: nat, b: nat, k: nat)
    requires p / 16 == b && p % 16 == k
    ensures KeyAt(aes, start, p) == aes(IncTimes(start, b))[k]
  {
    hide IncTimes;
  }

  lemma BlockPosition(b: nat, o: nat, k: nat)
    requires o == 16 * b && k < 16
    ensures o / 16 == b && o % 16 == 0 && (o + k) / 16 == b && (o + k) % 16 == k
  {
  }

  lemma {:induction false} XorCommutes(a: nat, b: nat)
    ensures Xor(a, b) == Xor(b, a)
    decreases a + b
  {
    if a + b > 0 {
      XorCommutes(a / 2, b / 2);
    }
  }

  lemma XorCancels(d: Byte, a: Byte, b: Byte)
    requires XorByte(d, a) == XorByte(d, b)
    ensures a == b
  {
    XorCommutes(d, a);
    XorCommutes(d, b);
    XorTwice(a, d);
    XorTwice(b, d);
  }

  // ---------- the code ----------

  /** PUTU32 into a counter array. */
  method PutU32(counter: array<Byte>, i: nat, v: nat)
    requires counter.Length == 16 && i < 4
    modifies counter
    ensures counter[..] == PutWord(old(counter[..]), i, v)
  {
    counter[4 * i] := v / 0x1000000 % 256;
    counter[4 * i + 1] := v / 0x10000 % 256;
    counter[4 * i + 2] := v / 0x100 % 256;
    counter[4 * i + 3] := v % 256;
  }

  /** AES_counter128_set, whatever the counter held before. */
  method CounterSet(counter: array<Byte>, iv: Block, val: nat)
    requires counter.Length == 16
    modifies counter
    ensures counter[..] == Set(iv, val)
  {
    hide PutWord, Word, Set;
    CopiedWords(counter[..], iv, val);
    PutU32(counter, 0, Word(iv, 0));
    PutU32(counter, 1, Word(iv, 1));
    PutU32(counter, 2, Word(iv, 2));
    PutU32(counter, 3, val);
  }

  lemma CopiedWords(s: Block, iv: Block, val: nat)
    ensures PutWord(PutWord(PutWord(PutWord(s, 0, Word(iv, 0)), 1, Word(iv, 1)), 2, Word(iv, 2)), 3, val)
         == Set(iv, val)
  {
    hide PutWord, Word;
    var s0 := PutWord(s, 0, Word(iv, 0));
    var s1 := PutWord(s0, 1, Word(iv, 1));
    var s2 := PutWord(s1, 2, Word(iv, 2));
    var s3 := PutWord(s2, 3, val);
    forall j | 0 <= j < 4 ensures Word(s3, j) == Word(Set(iv, val), j) {
      PutWordWords(s, 0, Word(iv, 0), j);
      PutWordWords(s0, 1, Word(iv, 1), j);
      PutWordWords(s1, 2, Word(iv, 2), j);
      PutWordWords(s2, 3, val, j);
      PutWordWords(iv, 3, val, j);
    }
    WordsDetermine(s3, Set(iv, val));
  }

  /** AES_counter128_inc. */
  method CounterInc(counter: array<Byte>)
    requires counter.Length == 16
    modifies counter
    ensures counter[..] == Inc(old(counter[..]))
  {
    hide PutWord, Word;
    ghost var s := counter[..];
    var c := (Word(counter[..], 3) + 1) % WORD;
    PutU32(counter, 3, c);
    if c != 0 { return; }
    assert Inc(s) == IncFrom(counter[..], 2);
    c := (Word(counter[..], 2) + 1) % WORD;
    PutU32(counter, 2, c);
    if c != 0 { return; }
    assert Inc(s) == IncFrom(counter[..], 1);
    c := (Word(counter[..], 1) + 1) % WORD;
    PutU32(counter, 1, c);
    if c != 0 { return; }
    assert Inc(s) == IncFrom(counter[..], 0);
    c := (Word(counter[..], 0) + 1) % WORD;
    PutU32(counter, 0, c);
  }

  lemma IncTimesNext(s: Block, k: nat)
    ensures IncTimes(s, 0) == s && IncTimes(s, k + 1) == Inc(IncTimes(s, k))
  {
  }

  /** The bytes made so far. */
  ghost predicate Made(out: seq<Byte>, data: seq<Byte>, aes: Block -> Block, start: Block, n0: nat) {
    |out| <= |data| && forall k :: 0 <= k < |out| ==> out[k] == XorByte(data[k], KeyAt(aes, start, n0 + k))
  }

  lemma MadeNone(data: seq<Byte>, aes: Block -> Block, start: Block, n0: nat)
    ensures Made([], data, aes, start, n0)
  {
  }

  lemma MadeNext(out: seq<Byte>, data: seq<Byte>, aes: Block -> Block, start: Block, n0: nat, x: Byte)
    requires Made(out, data, aes, start, n0) && |out| < |data|
    requires x == XorByte(data[|out|], KeyAt(aes, start, n0 + |out|))
    ensures Made(out + [x], data, aes, start, n0)
  {
    hide XorByte, KeyAt;
  }

  lemma EncryptIs(aes: Block -> Block, iv: Block, offset: nat, data: seq<Byte>, out: seq<Byte>)
    requires |out| == |data| && Made(out, data, aes, Set(iv, offset / 16), offset % 16)
    ensures out == Encrypt(aes, iv, offset, data)
  {
    hide XorByte, Set, KeyAt;
  }

  lemma KeyNow(aes: Block -> Block, start: Block, p: nat, n: nat, used: nat)
    requires used > 0 && n < 16 && p == 16 * (used - 1) + n
    ensures KeyAt(aes, start, p) == aes(IncTimes(start, used - 1))[n]
  {
    hide *;
    KeyAtBlock(aes, start, used - 1, n);
  }

  /** The next block of key stream; the counter moves on. */
  method NextBlock(counter: array<Byte>, aes: Block -> Block, ghost start: Block, ghost used: nat) returns (block: Block)
    requires counter.Length == 16 && counter[..] == IncTimes(start, used)
    modifies counter
    ensures block == aes(IncTimes(start, used)) && counter[..] == IncTimes(start, used + 1)
  {
    hide *;
    block := aes(counter[..]);
    CounterInc(counter);
    IncTimesNext(start, used);
  }

  /** One byte of the output. */
  method PutByte(input: array<Byte>, output: array<Byte>, l: nat, key: Byte, ghost data: seq<Byte>,
                 aes: Block -> Block, ghost start: Block, ghost n0: nat)
    requires l < |data| && l < input.Length && |data| <= output.Length && input[l] == data[l]
    requires Made(output[..l], data, aes, start, n0) && key == KeyAt(aes, start, n0 + l)
    modifies output
    ensures Made(output[..l + 1], data, aes, start, n0)
    ensures forall k :: l < k < output.Length ==> output[k] == old(output[k])
  {
    hide *;
    MadeNext(output[..l], data, aes, start, n0, XorByte(input[l], key));
    ghost var made := output[..l];
    output[l] := XorByte(input[l], key);
    assert output[..l + 1] == made + [output[l]];
  }

  /** AES_counter_crypt: the key stream is made block by block and used byte by
      byte. The input may be the output. */
  method Crypt(input: array<Byte>, output: array<Byte>, length: nat,
               aes: Block -> Block, iv: Block, offset: nat)
    requires length <= input.Length && length <= output.Length
    modifies output
    ensures output[..length] == Encrypt(aes, iv, offset, old(input[..length]))
    ensures output[length..] == old(output[length..])
  {
    hide *;
    ghost var data := input[..length];
    ghost var rest := output[length..];
    var counter := new Byte[16](_ => 0);
    var encCtrs: Block := seq(16, _ => 0);
    var blocknum: nat, n: nat := offset / 16, offset % 16;
    ghost var n0: nat := n;
    CounterSet(counter, iv, blocknum);
    ghost var start := Set(iv, blocknum);
    ghost var used: nat := 0;
    IncTimesNext(start, 0);
    if n != 0 {
      encCtrs := NextBlock(counter, aes, start, 0);
      used := 1;
    }
    Starts(n0, used);
    MadeNone(data, aes, start, n0);
    var l := 0;
    while l < length
      invariant 0 <= l <= length && fresh(counter) && counter.Length == 16
      invariant counter[..] == IncTimes(start, used) && OnBlock(n0 + l, n, used)
      invariant n != 0 ==> used > 0 && encCtrs == aes(IncTimes(start, used - 1))
      invariant Made(output[..l], data, aes, start, n0)
      invariant forall k :: l <= k < length ==> input[k] == data[k]
      invariant output[length..] == rest
    {
      if n == 0 {
        encCtrs := NextBlock(counter, aes, start, used);
        Opens(n0 + l, used);
        used := used + 1;
      }
      Advances(n0 + l, n, used);
      KeyNow(aes, start, n0 + l, n, used);
      PutByte(input, output, l, encCtrs[n], data, aes, start, n0);
      l := l + 1;
      n := (n + 1) % 16;
    }
    EncryptIs(aes, iv, offset, data, output[..length]);
  }

  lemma Starts(n: nat, used: nat)
    requires n < 16 && used == if n == 0 then 0 else 1
    ensures OnBlock(n, n, used)
  {
  }

  lemma Opens(p: nat, used: nat)
    requires OnBlock(p, 0, used)
    ensures p == 16 * used
  {
  }

  /** Byte n of the block before the counter is at p, and the next byte after it. */
  lemma Advances(p: nat, n: nat, used: nat)
    requires used > 0 && ((p == 16 * (used - 1) && n == 0) || (n != 0 && OnBlock(p, n, used)))
    ensures n < 16 && p == 16 * (used - 1) + n && OnBlock(p + 1, (n + 1) % 16, used)
  {
  }

  /** Position p is byte n of the block before the counter, or the first byte of
      the counter's block. */
  ghost predicate OnBlock(p: nat, n: nat, used: nat) {
    n < 16 && (n != 0 ==> used > 0 && p == 16 * (used - 1) + n) && (n == 0 ==> p == 16 * used)
  }
}
