/** The text form of IP sets: one network per line (src/storage/ipset.c).
    The conversion of addresses to and from text is a parameter. */
module CidrText {
  import opened Addresses
  import opened IpSetTheory
  import opened Options

  const MAX_IP_STR_LEN := 46
  const LINE_SIZE := 256

  /** An address of a family that has a text form. */
  type HostAddr = a: IpAddr | a.family == AF_INET || a.family == AF_INET6 witness IpAddr(seq(16, _ => 0), AF_INET)

  /** ip_addr_to_string and string_to_ip_addr */
  datatype Codec = Codec(toText: HostAddr -> string, fromText: string -> Option<HostAddr>)

  /** What an address may look like in a file. */
  predicate PlainText(s: string) {
    && 0 < |s| < MAX_IP_STR_LEN && s[0] != '#'
    && '/' !in s && '\n' !in s && '\0' !in s
  }

  /** The two conversions are inverse to each other on the significant bytes. */
  ghost predicate Faithful(codec: Codec) {
    forall a: HostAddr {:trigger codec.toText(a)} ::
      PlainText(codec.toText(a)) &&
      codec.fromText(codec.toText(a)).Some? &&
      codec.fromText(codec.toText(a)).value.Key() == a.Key()
  }

  // ----- numbers

  function Digit(d: nat): char
    requires d < 10
  {
    ('0' as int + d) as char
  }

  predicate IsDigit(c: char) {
    '0' <= c <= '9'
  }

  /** The conversion %u of printf. */
  function Decimal(n: nat): (s: string)
    ensures s != []
  {
    if n < 10 then [Digit(n)] else Decimal(n / 10) + [Digit(n % 10)]
  }

  /** The value of the leading digits, after what has been read already. */
  function ReadDigits(s: string, read: nat): nat {
    if s == [] || !IsDigit(s[0]) then read else ReadDigits(s[1..], 10 * read + (s[0] as int - '0' as int))
  }

  predicate IsSpace(c: char) {
    c == ' ' || '\t' <= c <= '\r'
  }

  /** strtol in base ten: white space, a sign, digits; saturating at the ends of a 64-bit long. */
  function StrToLong(s: string): int {
    if s != [] && IsSpace(s[0]) then StrToLong(s[1..])
    else
      var max: int := 0x7FFF_FFFF_FFFF_FFFF;
      if s != [] && s[0] == '-' then
        var n: int := ReadDigits(s[1..], 0);
        if n > max then -max - 1 else -n
      else
        var n := ReadDigits(if s != [] && s[0] == '+' then s[1..] else s, 0);
        if n > max then max else n
  }

  /** atoi, stored in a uint32_t. */
  function AtoiUnsigned(s: string): (n: nat)
    ensures n < 0x1_0000_0000
  {
    StrToLong(s) % 0x1_0000_0000
  }

  lemma {:induction false} ReadDecimal(n: nat, rest: string)
    ensures ReadDigits(Decimal(n) + rest, 0) == ReadDigits(rest, n)
    ensures IsDigit(Decimal(n)[0])
  {
    if n < 10 {
      assert (Decimal(n) + rest)[1..] == rest;
    } else {
      ReadDecimal(n / 10, [Digit(n % 10)] + rest);
      assert Decimal(n) + rest == Decimal(n / 10) + ([Digit(n % 10)] + rest);
      assert ([Digit(n % 10)] + rest)[1..] == rest;
    }
  }

  /** Reading back a printed number gives the number. */
  lemma AtoiOfDecimal(n: nat)
    requires n < 0x1_0000_0000
    ensures AtoiUnsigned(Decimal(n)) == n
  {
    ReadDecimal(n, []);
    assert Decimal(n) + [] == Decimal(n);
  }

  lemma {:induction false} DecimalIsDigits(n: nat, c: char)
    requires c in Decimal(n)
    ensures IsDigit(c)
  {
    if n >= 10 && c in Decimal(n / 10) {
      DecimalIsDigits(n / 10, c);
    }
  }

  // ----- one network

  /** strchr: the first place of the character, or the length of the string. */
  function IndexOfChar(s: string, c: char): (k: nat)
    ensures k <= |s| && (k < |s| ==> s[k] == c) && c !in s[..k]
  {
    if s == [] || s[0] == c then 0 else
      assert s[..1 + IndexOfChar(s[1..], c)] == [s[0]] + s[1..][..IndexOfChar(s[1..], c)];
      1 + IndexOfChar(s[1..], c)
  }

  /** The parse of ipset_add_cidr. Without a slash the prefix is 32 whatever the family. */
  function ParseCidr(codec: Codec, cidr: string): Option<Block> {
    var slash := IndexOfChar(cidr, '/');
    if slash == |cidr| then
      WithPrefix(codec, if |cidr| < MAX_IP_STR_LEN then cidr else cidr[..MAX_IP_STR_LEN - 1], 32)
    else if slash >= MAX_IP_STR_LEN then None
    else WithPrefix(codec, cidr[..slash], AtoiUnsigned(cidr[slash + 1..]))
  }

  function WithPrefix(codec: Codec, ipStr: string, prefixLen: nat): Option<Block> {
    match codec.fromText(ipStr)
    case None => None
    case Some(ip) =>
      if (ip.family == AF_INET && prefixLen > 32) || (ip.family == AF_INET6 && prefixLen > 128) then None
      else Some(Block(ip, prefixLen, 0))
  }

  /** The line ipset_save_to_file prints, without its newline. */
  function FormatBlock(codec: Codec, b: Block): string
    requires Standard(b)
  {
    codec.toText(b.ip) + "/" + Decimal(b.prefixLen)
  }

  predicate Standard(b: Block) {
    b.ip.family == AF_INET || b.ip.family == AF_INET6
  }

  /** What of an entry a file keeps. */
  datatype Net = Net(key: IpKey, prefixLen: Byte)

  function NetOf(b: Block): Net {
    Net(b.ip.Key(), b.prefixLen)
  }

  /** A printed network splits at its slash and reads back as itself, without an expiry time. */
  lemma ParseOfFormat(codec: Codec, b: Block)
    requires Faithful(codec) && Standard(b)
    ensures var r := ParseCidr(codec, FormatBlock(codec, b));
            r.Some? && NetOf(r.value) == NetOf(b) && r.value.expires == 0
  {
    hide IpAddr.Octets, AtoiUnsigned, PlainText;
    var text := codec.toText(b.ip);
    assert PlainText(text);
    var line := FormatBlock(codec, b);
    SplitAtSlash(text, Decimal(b.prefixLen));
    AtoiOfDecimal(b.prefixLen);
  }

  lemma SplitAtSlash(text: string, rest: string)
    requires PlainText(text)
    ensures var line := text + "/" + rest; var k := IndexOfChar(line, '/');
            k == |text| < MAX_IP_STR_LEN && k < |line| && line[..k] == text && line[k + 1..] == rest
  {
    IndexPast(text, rest);
  }

  lemma {:induction false} IndexPast(text: string, rest: string)
    requires '/' !in text
    ensures IndexOfChar(text + "/" + rest, '/') == |text|
  {
    var line := text + "/" + rest;
    if text != [] {
      assert line[0] == text[0] && line[1..] == text[1..] + "/" + rest;
      IndexPast(text[1..], rest);
    }
  }
}
