/** BIP-0039 mnemonics: entropy and checksum as a string of bits, cut into words of 11 bits each. */
module Bip39 {
  import opened ByteStrings
  import opened Results
  import opened CbcCipher

  datatype MnemonicError = InvalidEntropy | InvalidMnemonic | InvalidChecksum

  const WORD_BITS := 11
  const WORD_COUNT := 2048

  /** The word list: different words without spaces. */
  ghost predicate Words(list: seq<string>) {
    && |list| == WORD_COUNT
    && (forall i :: 0 <= i < |list| ==> list[i] != "" && ' ' !in list[i])
    && (forall i, j :: 0 <= i < j < |list| ==> list[i] != list[j])
  }

  // ---- Bits of bytes ----

  /** `1 << j`. */
  function Mask(j: nat): bv8
    requires j < 8
  {
    if j == 0 then 1 else Mask(j - 1) << 1
  }

  /** Bit `j`, counted from the least significant one. */
  predicate BitAt(c: bv8, j: nat) {
    if j == 0 then c & 1 == 1 else BitAt(c >> 1, j - 1)
  }

  /** Most significant bit first. */
  function ByteBits(c: bv8): (r: seq<bool>)
    ensures |r| == 8
  {
    seq(8, i requires 0 <= i < 8 => BitAt(c, 7 - i))
  }

  function Bits(s: Bytes): (r: seq<bool>)
    ensures |r| == 8 * |s|
  {
    if s == [] then [] else Bits(s[..|s| - 1]) + ByteBits(s[|s| - 1])
  }

  lemma {:induction false} MaskIsSingle(j: nat)
    requires j < 7
    ensures Mask(j) & 0x80 == 0
  {
    assert Mask(0) == 1 && Mask(1) == 2 && Mask(2) == 4 && Mask(3) == 8 && Mask(4) == 16 && Mask(5) == 32 && Mask(6) == 64;
  }

  lemma ShiftBack(m: bv8)
    requires m & 0x80 == 0
    ensures (m << 1) >> 1 == m && (m << 1) & 1 == 0
  {
  }

  lemma OrShift(c: bv8, m: bv8)
    ensures (c | m) >> 1 == (c >> 1) | (m >> 1) && ((c | m) & 1 == 1 <==> c & 1 == 1 || m & 1 == 1)
  {
  }

  lemma AndShift(c: bv8, m: bv8)
    ensures (c & m) >> 1 == (c >> 1) & (m >> 1) && ((c & m) & 1 == 1 <==> c & 1 == 1 && m & 1 == 1)
  {
  }

  /** The test by mask, as the source writes it. */
  lemma {:induction false} MaskTest(c: bv8, j: nat)
    requires j < 8
    ensures BitAt(c, j) <==> c & Mask(j) != 0
  {
    if j == 0 {
      LowBit(c);
    } else {
      MaskIsSingle(j - 1);
      MaskTest(c >> 1, j - 1);
      TestShift(c, Mask(j - 1));
    }
  }

  lemma LowBit(c: bv8)
    ensures c & 1 == 1 <==> c & 1 != 0
  {
  }

  lemma TestShift(c: bv8, m: bv8)
    requires m & 0x80 == 0
    ensures c & (m << 1) != 0 <==> (c >> 1) & m != 0
  {
  }

  lemma {:induction false} NoBits(k: nat)
    ensures !BitAt(0, k)
  {
    if k > 0 { NoBits(k - 1); }
  }

  lemma MaskShift(j: nat)
    requires j < 8
    ensures Mask(j) >> 1 == if j == 0 then 0 else Mask(j - 1)
    ensures Mask(j) & 1 == 1 <==> j == 0
  {
    if j > 0 {
      MaskIsSingle(j - 1);
      ShiftBack(Mask(j - 1));
    }
  }

  lemma OrZero(c: bv8)
    ensures c | 0 == c
  {
  }

  lemma OrUpper(c: bv8, m: bv8, n: bv8, k: nat)
    requires m >> 1 == n && k > 0
    ensures BitAt(c | m, k) == BitAt((c >> 1) | n, k - 1)
  {
    OrShift(c, m);
  }

  lemma OrLowest(c: bv8, m: bv8)
    ensures BitAt(c | m, 0) <==> BitAt(c, 0) || m & 1 == 1
  {
    OrShift(c, m);
  }

  lemma {:induction false} SetBit(c: bv8, j: nat, k: nat)
    requires j < 8
    ensures BitAt(c | Mask(j), k) <==> k == j || BitAt(c, k)
  {
    MaskShift(j);
    if k == 0 {
      OrLowest(c, Mask(j));
    } else if j == 0 {
      OrUpper(c, Mask(j), 0, k);
      OrZero(c >> 1);
    } else {
      OrUpper(c, Mask(j), Mask(j - 1), k);
      SetBit(c >> 1, j - 1, k - 1);
    }
  }

  lemma {:induction false} KeepBits(c: bv8, mask: bv8, k: nat)
    ensures BitAt(c & mask, k) <==> BitAt(c, k) && BitAt(mask, k)
  {
    AndShift(c, mask);
    if k > 0 { KeepBits(c >> 1, mask >> 1, k - 1); }
  }

  predicate SameBit(c: bv8, d: bv8, j: nat) {
    BitAt(c, j) == BitAt(d, j)
  }

  /** The low `n` bits of a byte that has no others. */
  lemma {:induction false} LowBitsDetermine(c: bv8, d: bv8, n: nat)
    requires n <= 8 && SmallerThan(c, n) && SmallerThan(d, n)
    requires forall j: nat | j < n :: SameBit(c, d, j)
    ensures c == d
  {
    if n > 0 {
      assert SameBit(c, d, 0);
      var c', d' := c >> 1, d >> 1;
      forall j: nat | j < n - 1 ensures SameBit(c', d', j) {
        assert SameBit(c, d, j + 1);
      }
      LowBitsDetermine(c >> 1, d >> 1, n - 1);
      FromShift(c, d);
    }
  }

  predicate SmallerThan(c: bv8, n: nat) {
    if n == 0 then c == 0 else SmallerThan(c >> 1, n - 1)
  }

  lemma FromShift(c: bv8, d: bv8)
    requires c >> 1 == d >> 1 && (c & 1 == 1 <==> d & 1 == 1)
    ensures c == d
  {
  }

  lemma EightBits(c: bv8)
    ensures SmallerThan(c, 8)
  {
    var d := c >> 1 >> 1 >> 1 >> 1;
    assert d >> 1 >> 1 >> 1 >> 1 == 0;
    assert SmallerThan(d >> 1 >> 1, 2);
    assert SmallerThan(d, 4);
    assert SmallerThan(c >> 1 >> 1, 6);
  }

  lemma ByteFromBits(c: bv8, d: bv8)
    requires ByteBits(c) == ByteBits(d)
    ensures c == d
  {
    forall j: nat | j < 8 ensures SameBit(c, d, j) {
      assert ByteBits(c)[7 - j] == ByteBits(d)[7 - j];
    }
    EightBits(c);
    EightBits(d);
    LowBitsDetermine(c, d, 8);
  }

  lemma {:induction false} BytesFromBits(s: Bytes, t: Bytes)
    requires Bits(s) == Bits(t)
    ensures s == t
  {
    if s != [] {
      var n := |s| - 1;
      assert Bits(s[..n]) == Bits(s)[..8 * n] && Bits(t[..n]) == Bits(t)[..8 * n];
      assert ByteBits(s[n]) == Bits(s)[8 * n..] && ByteBits(t[n]) == Bits(t)[8 * n..];
      BytesFromBits(s[..n], t[..n]);
      ByteFromBits(s[n], t[n]);
      assert s == s[..n] + [s[n]] && t == t[..n] + [t[n]];
    }
  }

  lemma {:induction false} BitsAppend(s: Bytes, t: Bytes)
    ensures Bits(s + t) == Bits(s) + Bits(t)
  {
    if t == [] {
      assert s + t == s;
    } else {
      var n := |t| - 1;
      BitsAppend(s, t[..n]);
      assert (s + t)[..|s + t| - 1] == s + t[..n];
    }
  }

  lemma WholeFront<T>(a: seq<T>, b: seq<T>, c: seq<T>, d: seq<T>)
    requires a + b == c + d && |a| == |c|
    ensures a == c && b == d
  {
    assert a == (a + b)[..|a|] && c == (c + d)[..|c|];
    assert b == (a + b)[|a|..] && d == (c + d)[|c|..];
  }

  // ---- Bits of word numbers ----

  function NumberBits(x: nat, width: nat): (r: seq<bool>)
    ensures |r| == width
  {
    if width == 0 then [] else NumberBits(x / 2, width - 1) + [x % 2 == 1]
  }

  function Value(bits: seq<bool>): nat {
    if bits == [] then 0 else 2 * Value(bits[..|bits| - 1]) + if bits[|bits| - 1] then 1 else 0
  }

  lemma {:induction false} ValueOfNumber(x: nat, width: nat)
    requires x < Power2(width)
    ensures Value(NumberBits(x, width)) == x
  {
    if width > 0 {
      assert NumberBits(x, width)[..width - 1] == NumberBits(x / 2, width - 1);
      ValueOfNumber(x / 2, width - 1);
    }
  }

  function Power2(n: nat): nat {
    if n == 0 then 1 else 2 * Power2(n - 1)
  }

  /** `x >> n`. */
  function Shifted(x: nat, n: nat): nat {
    if n == 0 then x else Shifted(x / 2, n - 1)
  }

  lemma {:induction false} BitOfNumber(x: nat, width: nat, n: nat)
    requires n < width
    ensures NumberBits(x, width)[width - 1 - n] == (Shifted(x, n) % 2 == 1)
  {
    if n > 0 { BitOfNumber(x / 2, width - 1, n - 1); }
  }

  function WordBits(indices: seq<nat>): (r: seq<bool>)
    ensures |r| == WORD_BITS * |indices|
  {
    if indices == [] then [] else WordBits(indices[..|indices| - 1]) + NumberBits(indices[|indices| - 1], WORD_BITS)
  }

  // ---- Repacking ----

  /** Whole words so far, and the value of the bits left over. */
  datatype Packer = Packer(words: seq<nat>, index: nat, pos: nat)

  function Feed(p: Packer, bit: bool): Packer {
    var index := 2 * p.index + if bit then 1 else 0;
    if p.pos + 1 == WORD_BITS then Packer(p.words + [index], 0, 0) else Packer(p.words, index, p.pos + 1)
  }

  function FeedAll(bits: seq<bool>): (p: Packer) {
    if bits == [] then Packer([], 0, 0) else Feed(FeedAll(bits[..|bits| - 1]), bits[|bits| - 1])
  }

  /** A packer that stands for these bits: those of its words, and then those of its index. */
  ghost predicate StandsFor(p: Packer, bits: seq<bool>) {
    && WordBits(p.words) + NumberBits(p.index, p.pos) == bits
    && p.pos < WORD_BITS && p.index < Power2(p.pos)
    && forall i :: 0 <= i < |p.words| ==> p.words[i] < WORD_COUNT
  }

  lemma BitMore(index: nat, pos: nat, bit: bool)
    requires index < Power2(pos)
    ensures var more := 2 * index + if bit then 1 else 0;
            NumberBits(more, pos + 1) == NumberBits(index, pos) + [bit] && more < Power2(pos + 1)
  {
  }

  lemma WordMore(words: seq<nat>, word: nat)
    ensures WordBits(words + [word]) == WordBits(words) + NumberBits(word, WORD_BITS)
  {
    assert (words + [word])[..|words|] == words;
  }

  lemma FeedStands(p: Packer, bits: seq<bool>, bit: bool)
    requires StandsFor(p, bits)
    ensures StandsFor(Feed(p, bit), bits + [bit])
  {
    BitMore(p.index, p.pos, bit);
    var index := 2 * p.index + if bit then 1 else 0;
    var front, number := WordBits(p.words), NumberBits(p.index, p.pos);
    assert front + (number + [bit]) == front + number + [bit];
    if p.pos + 1 == WORD_BITS {
      assert Power2(WORD_BITS) == WORD_COUNT;
      WordMore(p.words, index);
      assert NumberBits(0, 0) == [];
    }
  }

  lemma {:induction false} Packed(bits: seq<bool>)
    ensures StandsFor(FeedAll(bits), bits)
  {
    if bits != [] {
      Packed(bits[..|bits| - 1]);
      FeedStands(FeedAll(bits[..|bits| - 1]), bits[..|bits| - 1], bits[|bits| - 1]);
      assert bits[..|bits| - 1] + [bits[|bits| - 1]] == bits;
    }
  }

  lemma {:induction false} WordBitsDetermine(v: seq<nat>, w: seq<nat>)
    requires |v| == |w| && WordBits(v) == WordBits(w)
    requires forall i :: 0 <= i < |v| ==> v[i] < WORD_COUNT && w[i] < WORD_COUNT
    ensures v == w
  {
    if v != [] {
      var n := |v| - 1;
      WholeFront(WordBits(v[..n]), NumberBits(v[n], WORD_BITS), WordBits(w[..n]), NumberBits(w[n], WORD_BITS));
      WordBitsDetermine(v[..n], w[..n]);
      assert Power2(WORD_BITS) == WORD_COUNT;
      ValueOfNumber(v[n], WORD_BITS);
      ValueOfNumber(w[n], WORD_BITS);
      assert v == v[..n] + [v[n]] && w == w[..n] + [w[n]];
    }
  }

  /** Packing the bits of words, with less than a word's worth of bits after them, gives the words back. */
  lemma PackUnpacks(words: seq<nat>, rest: seq<bool>)
    requires |rest| < WORD_BITS && forall i :: 0 <= i < |words| ==> words[i] < WORD_COUNT
    ensures FeedAll(WordBits(words) + rest).words == words
  {
    var bits := WordBits(words) + rest;
    var p := FeedAll(bits);
    Packed(bits);
    assert |p.words| == |words|;
    assert WordBits(p.words) == bits[..WORD_BITS * |words|] == WordBits(words);
    WordBitsDetermine(p.words, words);
  }

  // ---- Words of a mnemonic ----

  /** Each word followed by a space, as the mnemonic is built up. */
  function Spaced(words: seq<string>): string {
    if words == [] then "" else Spaced(words[..|words| - 1]) + words[|words| - 1] + " "
  }

  /** The tokens between spaces, empty ones included; a text without a space is one token, no text is none. */
  function Tokens(text: string): seq<string> {
    if text == "" then [] else SplitAt(text)
  }

  function SplitAt(text: string): (r: seq<string>)
    ensures r != []
  {
    if text == "" then [""]
    else
      var n := |text| - 1;
      if text[n] == ' ' then SplitAt(text[..n]) + [""] else Extended(SplitAt(text[..n]), [text[n]])
  }

  /** The same tokens with more text at the end of the last one. */
  function Extended(tokens: seq<string>, more: string): (r: seq<string>)
    requires tokens != []
    ensures |r| == |tokens|
  {
    tokens[..|tokens| - 1] + [tokens[|tokens| - 1] + more]
  }

  lemma ExtendedTwice(tokens: seq<string>, a: string, b: string)
    requires tokens != []
    ensures Extended(Extended(tokens, a), b) == Extended(tokens, a + b)
  {
    var last := tokens[|tokens| - 1];
    assert last + a + b == last + (a + b);
  }

  lemma ExtendedByNothing(tokens: seq<string>)
    requires tokens != []
    ensures Extended(tokens, "") == tokens
  {
    assert tokens[|tokens| - 1] + "" == tokens[|tokens| - 1];
  }

  lemma SplitMore(text: string, c: char)
    ensures SplitAt(text + [c]) == if c == ' ' then SplitAt(text) + [""] else Extended(SplitAt(text), [c])
  {
    assert (text + [c])[..|text|] == text;
  }

  lemma {:induction false} SplitTail(text: string, word: string)
    requires ' ' !in word
    ensures SplitAt(text + word) == Extended(SplitAt(text), word)
  {
    if word == "" {
      assert text + word == text;
      ExtendedByNothing(SplitAt(text));
    } else {
      var front, c := word[..|word| - 1], word[|word| - 1];
      assert word == front + [c];
      SplitTail(text, front);
      SplitMore(text + front, c);
      assert text + word == text + front + [c];
      ExtendedTwice(SplitAt(text), front, [c]);
    }
  }

  /** Cutting words that were put together gives the words back. */
  lemma {:induction false} SplitSpaced(words: seq<string>)
    requires forall i :: 0 <= i < |words| ==> ' ' !in words[i]
    ensures SplitAt(Spaced(words)) == words + [""]
  {
    if words == [] {
      assert SplitAt("") == [""];
    } else {
      var n := |words| - 1;
      SplitSpaced(words[..n]);
      SplitTail(Spaced(words[..n]), words[n]);
      SplitMore(Spaced(words[..n]) + words[n], ' ');
      assert Extended(words[..n] + [""], words[n]) == words[..n] + ["" + words[n]];
      assert "" + words[n] == words[n];
      assert words[..n] + [words[n]] == words;
    }
  }

  lemma SpacedMore(words: seq<string>, word: string)
    ensures Spaced(words + [word]) == Spaced(words) + word + " "
  {
    assert (words + [word])[..|words|] == words;
  }

  /** And putting tokens together again gives the text back. */
  lemma {:induction false} SpacedSplit(text: string)
    ensures Spaced(SplitAt(text)) == text + " "
  {
    if text == "" {
      SpacedMore([], "");
      assert [] + [""] == [""];
    } else {
      var before, c := text[..|text| - 1], text[|text| - 1];
      var r := SplitAt(before);
      var front, last := r[..|r| - 1], r[|r| - 1];
      SpacedSplit(before);
      assert r == front + [last];
      SpacedMore(front, last);
      LastEqual(Spaced(front) + last, before, ' ');
      if c == ' ' {
        SpacedMore(r, "");
        assert before + " " + "" + " " == text + " ";
      } else {
        SpacedMore(front, last + [c]);
        assert Spaced(front) + (last + [c]) == before + [c];
      }
      assert text == before + [c];
    }
  }

  lemma LastEqual(a: string, b: string, c: char)
    requires a + [c] == b + [c]
    ensures a == b
  {
    assert a == (a + [c])[..|a + [c]| - 1] && b == (b + [c])[..|b + [c]| - 1];
  }

  /** The text of a mnemonic: the last space is cut off. */
  function Text(words: seq<string>): string
    requires words != []
  {
    Spaced(words)[..|Spaced(words)| - 1]
  }

  lemma TokensOfText(words: seq<string>)
    requires words != [] && forall i :: 0 <= i < |words| ==> words[i] != "" && ' ' !in words[i]
    ensures Tokens(Text(words)) == words
  {
    SplitSpaced(words);
    var t := Spaced(words);
    assert t == t[..|t| - 1] + " ";
    assert SplitAt(t) == SplitAt(t[..|t| - 1]) + [""];
    var r := SplitAt(t[..|t| - 1]);
    assert r == (r + [""])[..|r|] && words == (words + [""])[..|words|];
    assert Text(words) != "" by { assert |Spaced(words)| >= |words[|words| - 1]| + 1; }
  }

  lemma TextOfTokens(text: string)
    requires text != ""
    ensures Tokens(text) != [] && Text(Tokens(text)) == text
  {
    SpacedSplit(text);
    LastEqual(Text(Tokens(text)), text, ' ');
  }

  // ---- Checksum ----

  function Falses(n: nat): (r: seq<bool>)
    ensures |r| == n
  {
    seq(n, _ => false)
  }

  /** The `n` most significant bits. */
  function TopMask(n: nat): bv8
    requires n <= 8
  {
    if n == 0 then 0 else TopMask(n - 1) | Mask(8 - n)
  }

  lemma {:induction false} TopMaskBits(n: nat, k: nat)
    requires n <= 8 && k < 8
    ensures BitAt(TopMask(n), k) <==> k >= 8 - n
  {
    if n > 0 {
      TopMaskBits(n - 1, k);
      SetBit(TopMask(n - 1), 8 - n, k);
    } else {
      NoBits(k);
    }
  }

  predicate EntropySize(n: nat) {
    16 <= n <= 32 && n % 4 == 0
  }

  /** The checksum bits of BIP-0039, a quarter as many as the entropy has bytes, filled up with zeros. */
  ghost predicate IsChecksum(crypto: CryptoService, entropy: Bytes, checksum: Bytes) {
    var cs := |entropy| / 4;
    && crypto.Lawful() && cs <= 8
    && |checksum| == (cs + 7) / 8
    && Bits(checksum) == Bits(crypto.sha256(entropy))[..cs] + Falses(8 * |checksum| - cs)
  }

  method DeriveChecksumBits(crypto: CryptoService, entropy: Bytes) returns (hash: Bytes)
    requires crypto.Lawful() && EntropySize(|entropy|)
    ensures IsChecksum(crypto, entropy, hash)
  {
    var cs := |entropy| / 4;
    hash := CutHash(crypto.sha256(entropy), cs);
  }

  /** The first `cs` bits of a digest. */
  method CutHash(whole: Bytes, cs: nat) returns (hash: Bytes)
    requires |whole| == 32 && 4 <= cs <= 8
    ensures |hash| == 1 && Bits(hash) == Bits(whole)[..cs] + Falses(8 - cs)
  {
    hash := whole[..(cs + 7) / 8];
    assert (cs + 7) / 8 == 1 && hash == [whole[0]];
    var last := MaskLast(whole[0], cs);
    hash := [last];
    ChecksumByte(whole, cs, last);
  }

  method MaskLast(c: bv8, cs: nat) returns (last: bv8)
    requires 4 <= cs <= 8
    ensures ByteBits(last) == ByteBits(c)[..cs] + Falses(8 - cs)
  {
    var tmp := cs % 8;
    if tmp != 0 {
      last := Masked(c, tmp);
      MaskedByte(c, tmp);
    } else {
      last := c;
      WholeByte(c);
    }
  }

  method Masked(c: bv8, tmp: nat) returns (last: bv8)
    requires tmp <= 8
    ensures last == c & TopMask(tmp)
  {
    var mask := MakeMask(tmp);
    last := c & mask;
  }

  method MakeMask(tmp: nat) returns (mask: bv8)
    requires tmp <= 8
    ensures mask == TopMask(tmp)
  {
    mask := 0;
    for i := 0 to tmp
      invariant mask == TopMask(i)
    {
      mask := mask | Mask(7 - i);
    }
  }

  lemma ChecksumByte(whole: Bytes, cs: nat, c: bv8)
    requires whole != [] && 4 <= cs <= 8
    requires ByteBits(c) == ByteBits(whole[0])[..cs] + Falses(8 - cs)
    ensures Bits([c]) == Bits(whole)[..cs] + Falses(8 - cs)
  {
    FirstByte(whole);
    OneByte(c);
    assert Bits(whole)[..cs] == Bits(whole)[..8][..cs];
  }

  lemma WholeByte(c: bv8)
    ensures ByteBits(c) == ByteBits(c)[..8] + Falses(0)
  {
  }

  lemma OneByte(c: bv8)
    ensures Bits([c]) == ByteBits(c)
  {
    assert [c][..0] == [];
    assert Bits([]) == [];
  }

  lemma FirstByte(s: Bytes)
    requires s != []
    ensures Bits(s)[..8] == ByteBits(s[0])
  {
    assert s == [s[0]] + s[1..];
    BitsAppend([s[0]], s[1..]);
    OneByte(s[0]);
  }

  lemma MaskedByte(c: bv8, n: nat)
    requires n <= 8
    ensures ByteBits(c & TopMask(n)) == ByteBits(c)[..n] + Falses(8 - n)
  {
    var masked := c & TopMask(n);
    forall k: nat | k < 8 ensures CutBit(masked, c, n, k) {
      MaskedBit(c, n, k);
    }
    CutBits(c & TopMask(n), c, n);
  }

  lemma MaskedBit(c: bv8, n: nat, k: nat)
    requires n <= 8 && k < 8
    ensures CutBit(c & TopMask(n), c, n, k)
  {
    TopMaskBits(n, k);
    KeepBits(c, TopMask(n), k);
  }

  predicate CutBit(masked: bv8, c: bv8, n: nat, k: nat) {
    BitAt(masked, k) == (k >= 8 - n && BitAt(c, k))
  }

  lemma CutBits(masked: bv8, c: bv8, n: nat)
    requires n <= 8
    requires forall k: nat | k < 8 :: CutBit(masked, c, n, k)
    ensures ByteBits(masked) == ByteBits(c)[..n] + Falses(8 - n)
  {
    var l, r := ByteBits(masked), ByteBits(c)[..n] + Falses(8 - n);
    forall i | 0 <= i < 8 ensures l[i] == r[i] {
      assert CutBit(masked, c, n, 7 - i);
    }
  }

  // ---- Entropy to mnemonic ----

  function WordsAt(list: seq<string>, indices: seq<nat>): (r: seq<string>)
    requires forall i :: 0 <= i < |indices| ==> indices[i] < |list|
    ensures |r| == |indices| && forall i :: 0 <= i < |r| ==> r[i] == list[indices[i]]
  {
    seq(|indices|, i requires 0 <= i < |indices| => list[indices[i]])
  }

  /** The words whose numbers are cut from entropy and checksum, separated by spaces. */
  ghost predicate IsMnemonic(crypto: CryptoService, list: seq<string>, entropy: Bytes, mnemonic: string) {
    exists checksum, indices :: MnemonicOf(crypto, list, entropy, mnemonic, checksum, indices)
  }

  ghost predicate MnemonicOf(crypto: CryptoService, list: seq<string>, entropy: Bytes, mnemonic: string, checksum: Bytes,
                             indices: seq<nat>)
  {
    && IsChecksum(crypto, entropy, checksum)
    && indices == FeedAll(Bits(entropy + checksum)).words && indices != []
    && (forall i :: 0 <= i < |indices| ==> indices[i] < |list|)
    && mnemonic == Text(WordsAt(list, indices))
  }

  lemma FeedAllStep(bits: seq<bool>, bit: bool)
    ensures FeedAll(bits + [bit]) == Feed(FeedAll(bits), bit)
  {
    assert (bits + [bit])[..|bits|] == bits;
  }

  lemma WordsAtStep(list: seq<string>, indices: seq<nat>, index: nat)
    requires index < |list| && forall i :: 0 <= i < |indices| ==> indices[i] < |list|
    ensures Spaced(WordsAt(list, indices + [index])) == Spaced(WordsAt(list, indices)) + list[index] + " "
  {
    var all := WordsAt(list, indices + [index]);
    assert all[..|indices|] == WordsAt(list, indices);
  }

  lemma PackedBelow(bits: seq<bool>)
    ensures forall i :: 0 <= i < |FeedAll(bits).words| ==> FeedAll(bits).words[i] < WORD_COUNT
  {
    Packed(bits);
  }

  /** What has been appended when the bits `done` have been taken. */
  ghost predicate AppendState(list: seq<string>, done: seq<bool>, result: string, indices: seq<nat>, index: nat, pos: nat) {
    && FeedAll(done) == Packer(indices, index, pos)
    && (forall k :: 0 <= k < |indices| ==> indices[k] < |list|)
    && result == Spaced(WordsAt(list, indices))
  }

  lemma AppendBit(list: seq<string>, done: seq<bool>, bit: bool, result: string, indices: seq<nat>, index: nat, pos: nat)
    requires |list| == WORD_COUNT && AppendState(list, done, result, indices, index, pos)
    ensures var more := 2 * index + if bit then 1 else 0;
            if pos + 1 == WORD_BITS
            then more < |list| && AppendState(list, done + [bit], result + list[more] + " ", indices + [more], 0, 0)
            else AppendState(list, done + [bit], result, indices, more, pos + 1)
  {
    FeedAllStep(done, bit);
    PackedBelow(done + [bit]);
    var more := 2 * index + if bit then 1 else 0;
    if pos + 1 == WORD_BITS {
      assert FeedAll(done + [bit]).words[|indices|] == more;
      WordsAtStep(list, indices, more);
    }
  }

  /** The loop over bits and bytes: takes 11 bits at a time and appends the word with that number. */
  method AppendWords(list: seq<string>, bits: Bytes) returns (result: string, ghost indices: seq<nat>)
    requires |list| == WORD_COUNT
    ensures indices == FeedAll(Bits(bits)).words && forall i :: 0 <= i < |indices| ==> indices[i] < |list|
    ensures result == Spaced(WordsAt(list, indices))
  {
    result, indices := "", [];
    var pos: nat, index: nat := 0, 0;
    for i := 0 to |bits|
      invariant AppendState(list, Bits(bits[..i]), result, indices, index, pos)
    {
      var c := bits[i];
      result, indices, index, pos := AppendByte(list, c, result, indices, index, pos, Bits(bits[..i]));
      assert bits[..i + 1][..i] == bits[..i];
    }
    assert bits[..|bits|] == bits;
  }

  lemma OneBitMore(before: seq<bool>, c: bv8, j: nat)
    requires j < 8
    ensures before + ByteBits(c)[..7 - j] + [c & Mask(j) != 0] == before + ByteBits(c)[..8 - j]
  {
    MaskTest(c, j);
    assert ByteBits(c)[7 - j] == BitAt(c, j);
  }

  method AppendByte(list: seq<string>, c: bv8, result: string, ghost indices: seq<nat>, index: nat, pos: nat, ghost before: seq<bool>)
    returns (text: string, ghost found: seq<nat>, index': nat, pos': nat)
    requires |list| == WORD_COUNT && AppendState(list, before, result, indices, index, pos)
    ensures AppendState(list, before + ByteBits(c), text, found, index', pos')
  {
    text, found, index', pos' := result, indices, index, pos;
    ghost var done := before;
    var j := 7;
    while j >= 0
      invariant -1 <= j <= 7
      invariant done == before + ByteBits(c)[..7 - j] && AppendState(list, done, text, found, index', pos')
    {
      var bit := c & Mask(j) != 0;
      text, found, index', pos' := TakeBit(list, bit, text, found, index', pos', done);
      OneBitMore(before, c, j);
      done, j := done + [bit], j - 1;
    }
    assert ByteBits(c)[..8] == ByteBits(c);
  }

  /** One more bit, and the word that it completes. */
  method TakeBit(list: seq<string>, bit: bool, result: string, ghost indices: seq<nat>, index: nat, pos: nat, ghost done: seq<bool>)
    returns (text: string, ghost found: seq<nat>, index': nat, pos': nat)
    requires |list| == WORD_COUNT && AppendState(list, done, result, indices, index, pos)
    ensures AppendState(list, done + [bit], text, found, index', pos')
  {
    AppendBit(list, done, bit, result, indices, index, pos);
    text, found, index', pos' := result, indices, 2 * index + (if bit then 1 else 0), pos + 1;
    if pos' == WORD_BITS {
      text, found := text + list[index'] + " ", found + [index'];
      index', pos' := 0, 0;
    }
  }

  method EntropyToMnemonic(crypto: CryptoService, list: seq<string>, entropy: Bytes) returns (r: Result<string, MnemonicError>)
    requires crypto.Lawful() && Words(list)
    ensures !EntropySize(|entropy|) <==> r == Err(InvalidEntropy)
    ensures EntropySize(|entropy|) ==> r.Ok? && IsMnemonic(crypto, list, entropy, r.value)
  {
    if |entropy| < 16 || |entropy| > 32 || |entropy| % 4 != 0 {
      return Err(InvalidEntropy);
    }
    var hash := DeriveChecksumBits(crypto, entropy);
    var result, indices := AppendWords(list, entropy + hash);
    Packed(Bits(entropy + hash));
    assert MnemonicOf(crypto, list, entropy, result[..|result| - 1], hash, indices);
    r := Ok(result[..|result| - 1]);
  }

  // ---- Mnemonic to entropy ----

  /** Position of a word in the list, -1 if there is none. */
  method IndexOfWord(list: seq<string>, word: string) returns (index: int)
    requires Words(list)
    ensures index == -1 <==> word !in list
    ensures word in list ==> 0 <= index < |list| && list[index] == word
  {
    for i := 0 to WORD_COUNT
      invariant word !in list[..i]
    {
      if word == list[i] {
        return i;
      }
    }
    assert list[..WORD_COUNT] == list;
    index := -1;
  }

  /** The first `n` tokens have been looked up. */
  ghost predicate Found(list: seq<string>, tokens: seq<string>, n: nat, indices: seq<nat>) {
    && n == |indices| <= |tokens|
    && forall k :: 0 <= k < n ==> indices[k] < |list| && list[indices[k]] == tokens[k]
  }

  lemma {:induction false} WordBitsPrefix(a: seq<nat>, b: seq<nat>)
    requires a <= b
    ensures WordBits(a) <= WordBits(b)
    decreases |b|
  {
    if |a| < |b| {
      WordBitsPrefix(a, b[..|b| - 1]);
    } else {
      assert a == b;
    }
  }

  /** Bit `x` of the words, or a zero after their end. */
  ghost predicate WordBit(indices: seq<nat>, x: nat) {
    x < |WordBits(indices)| && WordBits(indices)[x]
  }

  /** Where the reading of bits stands: `consumed` bits, the last word looked up having `pos + 1` bits left. */
  ghost predicate Reading(list: seq<string>, tokens: seq<string>, indices: seq<nat>, wordPos: nat, pos: int, index: int, consumed: nat) {
    && Found(list, tokens, wordPos, indices)
    && -1 <= pos < WORD_BITS && consumed + pos + 1 == WORD_BITS * wordPos
    && (wordPos > 0 ==> index == indices[wordPos - 1])
  }

  /** Bits 0.. of byte number `i` are those of the words, up to `consumed` and zeros after it. */
  ghost predicate Filled(c: bv8, indices: seq<nat>, consumed: nat, i: nat) {
    forall b: nat | b < 8 :: FilledBit(c, indices, consumed, i, b)
  }

  ghost predicate FilledBit(c: bv8, indices: seq<nat>, consumed: nat, i: nat, b: nat)
    requires b < 8
  {
    BitAt(c, 7 - b) == (8 * i + b < consumed && WordBit(indices, 8 * i + b))
  }

  /** The next bit of the last word looked up. */
  lemma NextBit(indices: seq<nat>, pos: nat, consumed: nat)
    requires indices != [] && pos < WORD_BITS && consumed + pos + 1 == WORD_BITS * |indices|
    ensures WordBit(indices, consumed) == (Shifted(indices[|indices| - 1], pos) % 2 == 1)
  {
    var n := |indices| - 1;
    BitOfNumber(indices[n], WORD_BITS, pos);
    assert WordBits(indices)[consumed] == NumberBits(indices[n], WORD_BITS)[consumed - WORD_BITS * n];
  }

  lemma FillOne(c: bv8, indices: seq<nat>, i: nat, j: nat, at: nat, bit: bool)
    requires j < 8 && at == 8 * i + 7 - j && Filled(c, indices, at, i) && bit == WordBit(indices, at)
    ensures Filled(if bit then c | Mask(j) else c, indices, at + 1, i)
  {
    var d, next := if bit then c | Mask(j) else c, at + 1;
    forall b: nat | b < 8 ensures FilledBit(d, indices, next, i, b) {
      assert FilledBit(c, indices, at, i, b);
      SetBit(c, j, 7 - b);
    }
  }

  lemma FilledMore(c: bv8, a: seq<nat>, b: seq<nat>, consumed: nat, i: nat)
    requires Filled(c, a, consumed, i) && a <= b && consumed <= |WordBits(a)|
    ensures Filled(c, b, consumed, i)
  {
    WordBitsPrefix(a, b);
    forall k: nat | k < 8 ensures FilledBit(c, b, consumed, i, k) {
      assert FilledBit(c, a, consumed, i, k);
    }
  }

  lemma FillNext(list: seq<string>, tokens: seq<string>, indices: seq<nat>, wordPos: nat, pos: nat, index: nat, consumed: nat,
                 c: bv8, i: nat, j: nat)
    requires j < 8 && consumed == 8 * i + 7 - j
    requires Reading(list, tokens, indices, wordPos, pos, index, consumed) && Filled(c, indices, consumed, i)
    ensures Reading(list, tokens, indices, wordPos, pos - 1, index, consumed + 1)
    ensures Filled(if Shifted(index, pos) % 2 == 1 then c | Mask(j) else c, indices, consumed + 1, i)
  {
    NextBit(indices, pos, consumed);
    FillOne(c, indices, i, j, consumed, WordBit(indices, consumed));
  }

  /** Looks the next word up once the bits of the last one are used up. */
  method NextWord(list: seq<string>, tokens: seq<string>, wordPos: nat, ghost indices: seq<nat>, ghost consumed: nat,
                  ghost index0: int)
    returns (index: int, ghost more: seq<nat>)
    requires Words(list) && wordPos < |tokens| && Reading(list, tokens, indices, wordPos, -1, index0, consumed)
    ensures index == -1 ==> tokens[wordPos] !in list
    ensures index != -1 ==> indices <= more && Reading(list, tokens, more, wordPos + 1, WORD_BITS - 1, index, consumed)
                            && consumed <= |WordBits(indices)|
  {
    index := IndexOfWord(list, tokens[wordPos]);
    more := if index == -1 then indices else indices + [index];
  }

  /** Fills one byte of the buffer, which is zero before. Stops early when the words are used up. */
  method FillByte(list: seq<string>, tokens: seq<string>, i: nat, wordPos0: nat, pos0: int, index0: int, ghost indices0: seq<nat>)
    returns (ok: bool, c: bv8, wordPos: nat, pos: int, index: int, ghost indices: seq<nat>, ghost consumed: nat)
    requires Words(list) && 8 * i <= WORD_BITS * |tokens|
    requires Reading(list, tokens, indices0, wordPos0, pos0, index0, 8 * i)
    ensures indices0 <= indices
    ensures ok ==> consumed == Min(8 * i + 8, WORD_BITS * |tokens|) && Reading(list, tokens, indices, wordPos, pos, index, consumed)
                   && Filled(c, indices, consumed, i)
    ensures !ok ==> exists token :: token in tokens && token !in list
  {
    ok, c, wordPos, pos, index, indices := true, 0, wordPos0, pos0, index0, indices0;
    consumed := 8 * i;
    NothingFilled(indices, i);
    var j := 7;
    while j >= 0
      invariant -1 <= j <= 7 && consumed == 8 * i + 7 - j && indices0 <= indices
      invariant Reading(list, tokens, indices, wordPos, pos, index, consumed) && Filled(c, indices, consumed, i)
    {
      if pos == -1 {
        if wordPos >= |tokens| {
          break;
        }
        ghost var before := indices;
        index, indices := NextWord(list, tokens, wordPos, indices, consumed, index);
        if index == -1 {
          ok := false;
          assert tokens[wordPos] in tokens;
          return ok, c, wordPos, pos, index, indices0, consumed;
        }
        FilledMore(c, before, indices, consumed, i);
        wordPos, pos := wordPos + 1, WORD_BITS - 1;
      }
      FillNext(list, tokens, indices, wordPos, pos, index, consumed, c, i, j);
      if Shifted(index, pos) % 2 == 1 {
        c := c | Mask(j);
      }
      pos, j, consumed := pos - 1, j - 1, consumed + 1;
    }
  }

  lemma NothingFilled(indices: seq<nat>, i: nat)
    ensures Filled(0, indices, 8 * i, i)
  {
    forall b: nat | b < 8 ensures FilledBit(0, indices, 8 * i, i, b) {
      NoBits(7 - b);
    }
  }

  lemma FilledLater(c: bv8, a: seq<nat>, b: seq<nat>, consumed: nat, later: nat, i: nat)
    requires Filled(c, a, consumed, i) && a <= b && 8 * i + 8 <= consumed <= later && consumed <= |WordBits(a)|
    ensures Filled(c, b, later, i)
  {
    WordBitsPrefix(a, b);
    forall k: nat | k < 8 ensures FilledBit(c, b, later, i, k) {
      assert FilledBit(c, a, consumed, i, k);
    }
  }

  /** The first `n` bytes hold the first bits of the words. */
  ghost predicate FilledUpTo(buf: seq<bv8>, n: nat, indices: seq<nat>, consumed: nat) {
    n <= |buf| && forall t: nat | t < n :: Filled(buf[t], indices, consumed, t)
  }

  /** The buffer as a whole: the bits of the words, then zeros. */
  lemma {:induction false} BufferBits(buf: seq<bv8>, n: nat, indices: seq<nat>)
    requires FilledUpTo(buf, n, indices, |WordBits(indices)|) && |WordBits(indices)| <= 8 * |buf|
    ensures Bits(buf[..n]) == (WordBits(indices) + Falses(8 * |buf| - |WordBits(indices)|))[..8 * n]
  {
    if n == 0 {
      assert buf[..0] == [];
    } else {
      BufferBits(buf, n - 1, indices);
      assert buf[..n][..n - 1] == buf[..n - 1];
      var all := WordBits(indices) + Falses(8 * |buf| - |WordBits(indices)|);
      ByteOfBuffer(buf[n - 1], indices, n - 1, all);
      assert all[..8 * n] == all[..8 * (n - 1)] + all[8 * (n - 1)..8 * n];
    }
  }

  lemma ByteOfBuffer(c: bv8, indices: seq<nat>, i: nat, all: seq<bool>)
    requires Filled(c, indices, |WordBits(indices)|, i) && 8 * i + 8 <= |all| && |WordBits(indices)| <= |all|
    requires all == WordBits(indices) + Falses(|all| - |WordBits(indices)|)
    ensures ByteBits(c) == all[8 * i..8 * i + 8]
  {
    var l, r := ByteBits(c), all[8 * i..8 * i + 8];
    forall b | 0 <= b < 8 ensures l[b] == r[b] {
      assert FilledBit(c, indices, |WordBits(indices)|, i, b);
    }
  }

  /** What a mnemonic must be like to be accepted, and the entropy it then has. */
  ghost predicate Reads(crypto: CryptoService, list: seq<string>, mnemonic: string, entropy: Bytes) {
    exists indices, checksum :: ReadsAs(crypto, list, mnemonic, entropy, indices, checksum)
  }

  ghost predicate ReadsAs(crypto: CryptoService, list: seq<string>, mnemonic: string, entropy: Bytes, indices: seq<nat>,
                          checksum: Bytes)
  {
    var tokens := Tokens(mnemonic);
    && |tokens| % 3 == 0 && Found(list, tokens, |tokens|, indices)
    && EntropySize(|entropy|) && |entropy| == |tokens| / 3 * 4
    && IsChecksum(crypto, entropy, checksum)
    && BufferOf(indices, entropy + checksum)
  }

  /** The bytes into which the bits of the words fit. */
  ghost predicate BufferOf(indices: seq<nat>, buf: Bytes) {
    && |buf| == (WORD_BITS * |indices| + 7) / 8
    && Bits(buf) == WordBits(indices) + Falses(8 * |buf| - WORD_BITS * |indices|)
  }

  /** The loop over the words: their bits, put together to bytes. Fails on a word that is not in the list. */
  method CollectBits(list: seq<string>, tokens: seq<string>) returns (ok: bool, bytes: Bytes, ghost indices: seq<nat>)
    requires Words(list)
    ensures ok ==> Found(list, tokens, |tokens|, indices) && BufferOf(indices, bytes)
    ensures !ok ==> exists token :: token in tokens && token !in list
  {
    indices := [];
    var buf := new bv8[(|tokens| * WORD_BITS + 7) / 8](_ => 0);
    var wordPos: nat, pos, index := 0, -1, 0;
    ghost var consumed: nat := 0;
    for i := 0 to buf.Length
      invariant consumed == Min(8 * i, WORD_BITS * |tokens|)
      invariant Reading(list, tokens, indices, wordPos, pos, index, consumed)
      invariant FilledUpTo(buf[..], i, indices, consumed)
    {
      ghost var before, seen := indices, consumed;
      var c: bv8;
      ok, c, wordPos, pos, index, indices, consumed := FillByte(list, tokens, i, wordPos, pos, index, indices);
      if !ok {
        return false, [], [];
      }
      FilledUpToMore(buf[..], i, before, indices, seen, consumed);
      buf[i] := c;
    }
    ok, bytes := true, buf[..];
    AllConsumed(list, tokens, indices, wordPos, pos, index, consumed, bytes);
  }

  lemma FilledUpToMore(buf: seq<bv8>, i: nat, a: seq<nat>, b: seq<nat>, consumed: nat, later: nat)
    requires FilledUpTo(buf, i, a, consumed) && a <= b && 8 * i == consumed <= later && consumed <= |WordBits(a)|
    ensures FilledUpTo(buf, i, b, later)
  {
    forall t: nat | t < i ensures Filled(buf[t], b, later, t) {
      FilledLater(buf[t], a, b, consumed, later, t);
    }
  }

  lemma AllConsumed(list: seq<string>, tokens: seq<string>, indices: seq<nat>, wordPos: nat, pos: int, index: int, consumed: nat,
                    buf: Bytes)
    requires Reading(list, tokens, indices, wordPos, pos, index, consumed) && consumed == WORD_BITS * |tokens|
    requires |buf| == (WORD_BITS * |tokens| + 7) / 8 && FilledUpTo(buf, |buf|, indices, consumed)
    ensures Found(list, tokens, |tokens|, indices) && BufferOf(indices, buf)
  {
    BufferBits(buf, |buf|, indices);
    assert buf[..|buf|] == buf;
  }

  method MnemonicToEntropy(crypto: CryptoService, list: seq<string>, mnemonic: string) returns (r: Result<Bytes, MnemonicError>)
    requires crypto.Lawful() && Words(list)
    ensures r.Ok? ==> Reads(crypto, list, mnemonic, r.value)
    ensures r.Err? ==> forall entropy :: !Reads(crypto, list, mnemonic, entropy)
    ensures r == Err(InvalidMnemonic) <==>
              |Tokens(mnemonic)| % 3 != 0 || exists token :: token in Tokens(mnemonic) && token !in list
    ensures r == Err(InvalidEntropy) ==> !EntropySize(|Tokens(mnemonic)| / 3 * 4)
  {
    var tokens := Tokens(mnemonic);
    if |tokens| % 3 != 0 {
      return Err(InvalidMnemonic);
    }
    var ok, buf, indices := CollectBits(list, tokens);
    if !ok {
      UnknownWord(crypto, list, mnemonic);
      return Err(InvalidMnemonic);
    }
    AllKnown(list, tokens, indices);
    var mnemonicSize := |tokens| / 3 * 4;
    var entropy, checksum := buf[..mnemonicSize], buf[mnemonicSize..];
    assert buf == entropy + checksum;
    if !EntropySize(|entropy|) {
      return Err(InvalidEntropy);
    }
    var expected := DeriveChecksumBits(crypto, entropy);
    if checksum != expected {
      OnlyThis(crypto, list, mnemonic, entropy, indices, checksum, expected);
      return Err(InvalidChecksum);
    }
    assert ReadsAs(crypto, list, mnemonic, entropy, indices, checksum);
    r := Ok(entropy);
  }

  lemma UnknownWord(crypto: CryptoService, list: seq<string>, mnemonic: string)
    requires exists token :: token in Tokens(mnemonic) && token !in list
    ensures forall entropy :: !Reads(crypto, list, mnemonic, entropy)
  {
    forall entropy ensures !Reads(crypto, list, mnemonic, entropy) {
      if Reads(crypto, list, mnemonic, entropy) {
        var indices, checksum :| ReadsAs(crypto, list, mnemonic, entropy, indices, checksum);
        AllKnown(list, Tokens(mnemonic), indices);
      }
    }
  }

  lemma AllKnown(list: seq<string>, tokens: seq<string>, indices: seq<nat>)
    requires Found(list, tokens, |tokens|, indices)
    ensures forall token :: token in tokens ==> token in list
  {
    forall token | token in tokens ensures token in list {
      var k :| 0 <= k < |tokens| && tokens[k] == token;
      assert list[indices[k]] == token;
    }
  }

  lemma FoundOnce(list: seq<string>, tokens: seq<string>, a: seq<nat>, b: seq<nat>)
    requires Words(list) && Found(list, tokens, |tokens|, a) && Found(list, tokens, |tokens|, b)
    ensures a == b
  {
  }

  lemma BufferOnce(indices: seq<nat>, a: Bytes, b: Bytes)
    requires BufferOf(indices, a) && BufferOf(indices, b)
    ensures a == b
  {
    BytesFromBits(a, b);
  }

  lemma ChecksumOnce(crypto: CryptoService, entropy: Bytes, a: Bytes, b: Bytes)
    requires IsChecksum(crypto, entropy, a) && IsChecksum(crypto, entropy, b)
    ensures a == b
  {
    BytesFromBits(a, b);
  }

  /** The words leave no choice of the entropy and its checksum. */
  lemma OnlyThis(crypto: CryptoService, list: seq<string>, mnemonic: string, entropy: Bytes, indices: seq<nat>, checksum: Bytes,
                 expected: Bytes)
    requires Words(list) && Found(list, Tokens(mnemonic), |Tokens(mnemonic)|, indices) && BufferOf(indices, entropy + checksum)
    requires |entropy| == |Tokens(mnemonic)| / 3 * 4 && IsChecksum(crypto, entropy, expected) && checksum != expected
    ensures forall other :: !Reads(crypto, list, mnemonic, other)
  {
    forall other ensures !Reads(crypto, list, mnemonic, other) {
      if Reads(crypto, list, mnemonic, other) {
        var i, c :| ReadsAs(crypto, list, mnemonic, other, i, c);
        FoundOnce(list, Tokens(mnemonic), indices, i);
        BufferOnce(indices, entropy + checksum, other + c);
        assert other == (other + c)[..|other|] && entropy == (entropy + checksum)[..|entropy|];
        assert c == (other + c)[|other|..] && checksum == (entropy + checksum)[|entropy|..];
        ChecksumOnce(crypto, entropy, c, expected);
      }
    }
  }

  // ---- Round trips ----

  lemma SplitBits(entropy: Bytes, checksum: Bytes, sha: Bytes, cs: nat)
    requires cs <= 8 && |sha| >= 1 && |checksum| == 1 && Bits(checksum) == Bits(sha)[..cs] + Falses(8 - cs)
    ensures Bits(entropy + checksum) == (Bits(entropy) + Bits(sha)[..cs]) + Falses(8 - cs)
  {
    BitsAppend(entropy, checksum);
  }

  /** Packing entropy and checksum uses all bits but the zeros at the end. */
  lemma PackedEntropy(crypto: CryptoService, entropy: Bytes, checksum: Bytes, indices: seq<nat>)
    requires EntropySize(|entropy|) && IsChecksum(crypto, entropy, checksum)
    requires indices == FeedAll(Bits(entropy + checksum)).words
    ensures |indices| == |entropy| / 4 * 3 && BufferOf(indices, entropy + checksum)
    ensures forall i :: 0 <= i < |indices| ==> indices[i] < WORD_COUNT
  {
    var cs, bits := |entropy| / 4, Bits(entropy + checksum);
    var p := FeedAll(bits);
    Packed(bits);
    assert |bits| == 8 * |entropy| + 8 && |entropy| == 4 * cs && WORD_BITS * (3 * cs) == 33 * cs;
    assert |indices| == 3 * cs;
    SplitBits(entropy, checksum, crypto.sha256(entropy), cs);
    WholeFront(WordBits(indices), NumberBits(p.index, p.pos), Bits(entropy) + Bits(crypto.sha256(entropy))[..cs], Falses(8 - cs));
  }

  /** Unpacking and packing again gives the same words. */
  lemma RepackedEntropy(entropy: Bytes, checksum: Bytes, indices: seq<nat>)
    requires BufferOf(indices, entropy + checksum) && forall i :: 0 <= i < |indices| ==> indices[i] < WORD_COUNT
    ensures FeedAll(Bits(entropy + checksum)).words == indices
  {
    PackUnpacks(indices, Falses(8 * |entropy + checksum| - WORD_BITS * |indices|));
  }

  lemma WordsFound(list: seq<string>, indices: seq<nat>)
    requires Words(list) && forall i :: 0 <= i < |indices| ==> indices[i] < |list|
    ensures Found(list, WordsAt(list, indices), |indices|, indices)
    ensures forall i :: 0 <= i < |indices| ==> WordsAt(list, indices)[i] != "" && ' ' !in WordsAt(list, indices)[i]
  {
  }

  lemma CountsMatch(size: nat, words: nat)
    requires EntropySize(size) && words == size / 4 * 3
    ensures words % 3 == 0 && words / 3 * 4 == size && words > 0
  {
  }

  lemma MnemonicReads(crypto: CryptoService, list: seq<string>, entropy: Bytes, mnemonic: string, checksum: Bytes, indices: seq<nat>)
    requires Words(list) && EntropySize(|entropy|) && MnemonicOf(crypto, list, entropy, mnemonic, checksum, indices)
    ensures ReadsAs(crypto, list, mnemonic, entropy, indices, checksum)
  {
    PackedEntropy(crypto, entropy, checksum, indices);
    CountsMatch(|entropy|, |indices|);
    WordsFound(list, indices);
    TokensOfText(WordsAt(list, indices));
  }

  lemma ReadIsMnemonic(crypto: CryptoService, list: seq<string>, entropy: Bytes, mnemonic: string, checksum: Bytes, indices: seq<nat>)
    requires Words(list) && ReadsAs(crypto, list, mnemonic, entropy, indices, checksum)
    ensures MnemonicOf(crypto, list, entropy, mnemonic, checksum, indices)
  {
    RepackedEntropy(entropy, checksum, indices);
    assert mnemonic != "" by { assert Tokens("") == []; }
    TextOfTokens(mnemonic);
    assert WordsAt(list, indices) == Tokens(mnemonic);
  }

  /** A mnemonic belongs to an entropy exactly when it is read as that entropy. */
  lemma MnemonicIffReads(crypto: CryptoService, list: seq<string>, entropy: Bytes, mnemonic: string)
    requires Words(list) && EntropySize(|entropy|)
    ensures IsMnemonic(crypto, list, entropy, mnemonic) <==> Reads(crypto, list, mnemonic, entropy)
  {
    if IsMnemonic(crypto, list, entropy, mnemonic) {
      var checksum, indices :| MnemonicOf(crypto, list, entropy, mnemonic, checksum, indices);
      MnemonicReads(crypto, list, entropy, mnemonic, checksum, indices);
    }
    if Reads(crypto, list, mnemonic, entropy) {
      var indices, checksum :| ReadsAs(crypto, list, mnemonic, entropy, indices, checksum);
      ReadIsMnemonic(crypto, list, entropy, mnemonic, checksum, indices);
    }
  }

  /** An entropy has one mnemonic. */
  lemma MnemonicOnce(crypto: CryptoService, list: seq<string>, entropy: Bytes, a: string, b: string)
    requires IsMnemonic(crypto, list, entropy, a) && IsMnemonic(crypto, list, entropy, b)
    ensures a == b
  {
    var c, i :| MnemonicOf(crypto, list, entropy, a, c, i);
    var d, j :| MnemonicOf(crypto, list, entropy, b, d, j);
    ChecksumOnce(crypto, entropy, c, d);
  }

  /** A mnemonic has at most one entropy. */
  lemma EntropyOnce(crypto: CryptoService, list: seq<string>, mnemonic: string, a: Bytes, b: Bytes)
    requires Words(list) && Reads(crypto, list, mnemonic, a) && Reads(crypto, list, mnemonic, b)
    ensures a == b
  {
    var i, c :| ReadsAs(crypto, list, mnemonic, a, i, c);
    var j, d :| ReadsAs(crypto, list, mnemonic, b, j, d);
    FoundOnce(list, Tokens(mnemonic), i, j);
    BufferOnce(i, a + c, b + d);
    WholeFront(a, c, b, d);
  }

  /** Every entropy comes back from its mnemonic. */
  method EntropyRoundTrip(crypto: CryptoService, list: seq<string>, entropy: Bytes) returns (r: Result<Bytes, MnemonicError>)
    requires crypto.Lawful() && Words(list)
    ensures r == if EntropySize(|entropy|) then Ok(entropy) else Err(InvalidEntropy)
  {
    var mnemonic := EntropyToMnemonic(crypto, list, entropy);
    if mnemonic.Err? {
      return Err(mnemonic.error);
    }
    MnemonicIffReads(crypto, list, entropy, mnemonic.value);
    r := MnemonicToEntropy(crypto, list, mnemonic.value);
    if r.Ok? { EntropyOnce(crypto, list, mnemonic.value, entropy, r.value); }
  }

  /** Every mnemonic that is accepted comes back from its entropy. */
  method MnemonicRoundTrip(crypto: CryptoService, list: seq<string>, mnemonic: string) returns (r: Result<string, MnemonicError>)
    requires crypto.Lawful() && Words(list)
    ensures r.Ok? ==> r.value == mnemonic
    ensures r.Ok? <==> exists entropy :: Reads(crypto, list, mnemonic, entropy)
  {
    var entropy := MnemonicToEntropy(crypto, list, mnemonic);
    if entropy.Err? {
      return Err(entropy.error);
    }
    r := EntropyToMnemonic(crypto, list, entropy.value);
    assert EntropySize(|entropy.value|);
    MnemonicIffReads(crypto, list, entropy.value, mnemonic);
    MnemonicOnce(crypto, list, entropy.value, mnemonic, r.value);
  }
}
