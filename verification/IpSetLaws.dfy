/** What a clean-up takes out of an IP set, what a line of a file adds to it, and the hash that files its entries. */
module IpSetLaws {
  import opened Addresses
  import opened Bits
  import opened CidrText
  import opened Endian
  import opened IpHash
  import opened IpSetAnswers
  import opened IpSetFile
  import opened IpSetTheory
  import opened Options

  // ----- clean-up

  lemma {:induction false} SweptExactly(c: seq<Block>, now: int, b: Block)
    ensures multiset(Sweep(c, now))[b] == if b.expires > 0 && now > b.expires then 0 else multiset(c)[b]
  {
    if c != [] {
      SweptExactly(c[1..], now, b);
      assert c == [c[0]] + c[1..];
    }
  }

  /** A clean-up takes out every entry whose time has passed and no other: an entry with an expiry time
      before now is gone, any other is there as often as before; and the count is right. */
  lemma CleanupExactly(t: IpTable, now: int, b: Block)
    ensures var u := Cleanup(t, now);
            && multiset(Flat(u.chains))[b] == (if b.expires > 0 && now > b.expires then 0 else multiset(Flat(t.chains))[b])
            && u.count == |Flat(u.chains)| && u.maxSize == t.maxSize
  {
    hide Sweep, SweepAll, Flat;
    FlatSwept(t.chains, now);
    SweptExactly(Flat(t.chains), now, b);
    FlatSize(Cleanup(t, now).chains);
  }

  // ----- one line

  /** An address and a decimal prefix length are accepted exactly when the address has at most 45 characters
      and can be read, and the prefix is at most 32 for IPv4 and 128 for IPv6; they mean this network for good. */
  lemma ParsedExactly(codec: Codec, text: string, n: nat)
    requires '/' !in text && n < 0x1_0000_0000
    ensures var r, a := ParseCidr(codec, text + "/" + Decimal(n)), codec.fromText(text);
            && (r.Some? <==> |text| <= 45 && a.Some? && n <= if a.value.family == AF_INET then 32 else 128)
            && (r.Some? ==> r.value == Block(a.value, n, 0))
  {
    hide AtoiUnsigned;
    var line := text + "/" + Decimal(n);
    IndexPast(text, Decimal(n));
    assert line[..|text|] == text && line[|text| + 1..] == Decimal(n);
    AtoiOfDecimal(n);
  }

  /** Without a slash the first 45 characters are the address, with prefix 32. */
  lemma BareExactly(codec: Codec, text: string)
    requires '/' !in text
    ensures var a := codec.fromText(if |text| <= 45 then text else text[..45]);
            ParseCidr(codec, text) == if a.Some? then Some(Block(a.value, 32, 0)) else None
  {
    NoSlash(text);
  }

  /** Numbers as they are printed. */
  lemma Printed()
    ensures Decimal(0) == "0" && Decimal(24) == "24" && Decimal(128) == "128"
  {
    assert Decimal(2) == "2" && Decimal(1) == "1";
    assert Decimal(12) == "12";
    assert Decimal(128) == Decimal(12) + "8";
  }

  /** What atoi makes of nothing, of other text, of a sign, of spaces and of trailing text. */
  lemma Read()
    ensures AtoiUnsigned("") == 0 && AtoiUnsigned("x1") == 0 && AtoiUnsigned(" +8x") == 8 && AtoiUnsigned("-1") == 0xffff_ffff
  {
    assert "-1"[1..] == "1" && "1"[1..] == "" && ReadDigits("1", 0) == ReadDigits("", 1) == 1;
    assert " +8x"[1..] == "+8x" && "+8x"[1..] == "8x" && "8x"[1..] == "x";
    assert ReadDigits("8x", 0) == ReadDigits("x", 8) == 8;
    assert StrToLong("+8x") == 8;
  }

  // ----- a file, line by line

  lemma LineTaken(line: string, rest: string)
    requires |line| < 255 && '\n' !in line && '\0' !in line
    ensures var text := line + "\n" + rest; var n := LineLength(text);
            n == |line| + 1 && text[n..] == rest && CutLine(text[..n]) == line
  {
    IndexOfFirst(line, rest, '\n');
    var text := line + "\n" + rest;
    assert text[..|line| + 1] == line + "\n";
    IndexOfFirst(line + "\n", [], '\0');
    assert (line + "\n")[..|line| + 1] == line + "\n";
    assert line + "\n" == line + "\n" + [];
    IndexOfFirst(line, [], '\n');
  }

  /** What one line of a file does: nothing when it is empty, a comment, or not a network; otherwise its
      network is added, and counted unless the set is full. */
  lemma OneLine(t: IpTable, codec: Codec, line: string, rest: string)
    requires |t.chains| == IPSET_BUCKETS && |line| < 255 && '\n' !in line && '\0' !in line
    ensures var (u, n) := LoadText(t, codec, line + "\n" + rest); var p := ParseCidr(codec, line);
            if line == "" || line[0] == '#' || p.None? then (u, n) == LoadText(t, codec, rest)
            else
              var more := LoadText(AddBlock(t, p.value), codec, rest);
              u == more.0 && n == more.1 + if t.count < t.maxSize then 1 else 0
  {
    hide ParseCidr, LineLength, CutLine, AddBlock;
    LineTaken(line, rest);
  }

  lemma PieceTaken(piece: string, rest: string)
    requires |piece| == 255 && '\n' !in piece && '\0' !in piece
    ensures LineLength(piece + rest) == 255 && CutLine(piece) == piece
  {
    hide IndexOfChar;
    var text := piece + rest;
    forall i | 0 <= i < 255
      ensures text[i] != '\n'
    {
      assert text[i] == piece[i];
    }
    IndexOfFirst(piece, [], '\n');
    IndexOfFirst(piece, [], '\0');
    assert piece[..255] == piece;
  }

  /** A line of more than 254 characters is read in pieces of 255, as if each were a line of its own. */
  lemma LongLine(t: IpTable, codec: Codec, piece: string, rest: string)
    requires |t.chains| == IPSET_BUCKETS && |piece| == 255 && '\n' !in piece && '\0' !in piece
    ensures LoadText(t, codec, piece + rest) == LoadText(t, codec, piece + ("\n" + rest))
  {
    hide ParseCidr, LineLength, CutLine, Accepts, Bucket;
    PieceTaken(piece, rest);
    PieceTaken(piece, "\n" + rest);
    assert (piece + rest)[..255] == piece && (piece + rest)[255..] == rest;
    assert (piece + ("\n" + rest))[..255] == piece && (piece + ("\n" + rest))[255..] == "\n" + rest;
    EmptyLine(t, codec, rest);
    EmptyLine(AddCidr(t, codec, piece), codec, rest);
  }

  lemma EmptyLine(t: IpTable, codec: Codec, rest: string)
    requires |t.chains| == IPSET_BUCKETS
    ensures LoadText(t, codec, "\n" + rest) == LoadText(t, codec, rest)
  {
    hide LoadText;
    OneLine(t, codec, "", rest);
    assert "" + "\n" + rest == "\n" + rest;
  }

  // ----- the hash

  /** An IPv4 address hashes to itself, its first byte highest; an IPv6 address to the exclusive or of its
      four words, each with its first byte lowest. */
  lemma HashByBytes(k: IpKey, b: seq<Byte>)
    requires k.octets == b && (|b| == 4 || |b| == 16)
    ensures |b| == 4 ==> HashOf(k) == 0x100_0000 * b[0] as int + 0x1_0000 * b[1] as int + 0x100 * b[2] as int + b[3] as int
    ensures |b| == 16 ==>
              HashOf(k) == Xor(Xor(Xor(b[0] as int + 0x100 * b[1] as int + 0x1_0000 * b[2] as int + 0x100_0000 * b[3] as int,
                                       b[4] as int + 0x100 * b[5] as int + 0x1_0000 * b[6] as int + 0x100_0000 * b[7] as int),
                                   b[8] as int + 0x100 * b[9] as int + 0x1_0000 * b[10] as int + 0x100_0000 * b[11] as int),
                               b[12] as int + 0x100 * b[13] as int + 0x1_0000 * b[14] as int + 0x100_0000 * b[15] as int)
  {
    hide Xor;
    if |b| == 16 {
      assert HashOf(k) == Xor(XorOfWords(b, 3), LittleEndian(b[12..16]));
      assert XorOfWords(b, 3) == Xor(XorOfWords(b, 2), LittleEndian(b[8..12]));
      assert XorOfWords(b, 2) == Xor(XorOfWords(b, 1), LittleEndian(b[4..8]));
      assert XorOfWords(b, 1) == Xor(0, LittleEndian(b[0..4]));
      XorCommutes(0, LittleEndian(b[0..4]));
      XorWithZero(LittleEndian(b[0..4]));
    }
  }
}
