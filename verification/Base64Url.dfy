/** The URL-safe base64 text of six bytes, section 5 of RFC 4648. */
module Base64Url {

  type Byte = n: int | 0 <= n < 256

  type Sextet = n: int | 0 <= n < 64

  function Digit(n: Sextet): char {
    if n < 26 then ('A' as int + n) as char
    else if n < 52 then ('a' as int + (n - 26)) as char
    else if n < 62 then ('0' as int + (n - 52)) as char
    else if n == 62 then '-'
    else '_'
  }

  predicate IsDigit(c: char) {
    'A' <= c <= 'Z' || 'a' <= c <= 'z' || '0' <= c <= '9' || c == '-' || c == '_'
  }

  lemma DigitsDiffer(m: Sextet, n: Sextet)
    ensures IsDigit(Digit(n)) && (Digit(m) == Digit(n) <==> m == n)
  {
  }

  /** Three bytes are four sextets. */
  function Sextets(a: Byte, b: Byte, c: Byte): (Sextet, Sextet, Sextet, Sextet) {
    (a / 4, a % 4 * 16 + b / 16, b % 16 * 4 + c / 64, c % 64)
  }

  lemma SextetsDiffer(a: Byte, b: Byte, c: Byte, x: Byte, y: Byte, z: Byte)
    requires Sextets(a, b, c) == Sextets(x, y, z)
    ensures a == x && b == y && c == z
  {
  }

  function Group(a: Byte, b: Byte, c: Byte): string {
    var s := Sextets(a, b, c);
    [Digit(s.0), Digit(s.1), Digit(s.2), Digit(s.3)]
  }

  /** Six bytes are two groups, without padding. */
  function Encode(bytes: seq<Byte>): string
    requires |bytes| == 6
  {
    Group(bytes[0], bytes[1], bytes[2]) + Group(bytes[3], bytes[4], bytes[5])
  }

  lemma GroupShape(a: Byte, b: Byte, c: Byte)
    ensures |Group(a, b, c)| == 4 && forall d :: d in Group(a, b, c) ==> IsDigit(d)
  {
    var s := Sextets(a, b, c);
    DigitsDiffer(s.0, s.1);
    DigitsDiffer(s.1, s.2);
    DigitsDiffer(s.2, s.3);
    DigitsDiffer(s.3, s.0);
  }

  /** Eight characters of the alphabet. */
  lemma EncodeShape(bytes: seq<Byte>)
    requires |bytes| == 6
    ensures |Encode(bytes)| == 8 && forall d :: d in Encode(bytes) ==> IsDigit(d)
  {
    GroupShape(bytes[0], bytes[1], bytes[2]);
    GroupShape(bytes[3], bytes[4], bytes[5]);
  }

  lemma GroupsDiffer(a: Byte, b: Byte, c: Byte, x: Byte, y: Byte, z: Byte)
    requires Group(a, b, c) == Group(x, y, z)
    ensures a == x && b == y && c == z
  {
    var s, t, g, h := Sextets(a, b, c), Sextets(x, y, z), Group(a, b, c), Group(x, y, z);
    assert g[0] == h[0] && g[1] == h[1] && g[2] == h[2] && g[3] == h[3];
    DigitsDiffer(s.0, t.0);
    DigitsDiffer(s.1, t.1);
    DigitsDiffer(s.2, t.2);
    DigitsDiffer(s.3, t.3);
    SextetsDiffer(a, b, c, x, y, z);
  }

  lemma Halves(a: string, b: string, x: string, y: string)
    requires |a| == |x| && a + b == x + y
    ensures a == x && b == y
  {
    assert (a + b)[..|a|] == a && (x + y)[..|x|] == x;
    assert (a + b)[|a|..] == b && (x + y)[|x|..] == y;
  }

  lemma SixBytes(bytes: seq<Byte>)
    requires |bytes| == 6
    ensures bytes == [bytes[0], bytes[1], bytes[2], bytes[3], bytes[4], bytes[5]]
  {
  }

  /** Different bytes have different texts. */
  lemma EncodeDiffers(a: seq<Byte>, b: seq<Byte>)
    requires |a| == 6 && |b| == 6
    ensures Encode(a) == Encode(b) <==> a == b
  {
    if Encode(a) == Encode(b) {
      Halves(Group(a[0], a[1], a[2]), Group(a[3], a[4], a[5]), Group(b[0], b[1], b[2]), Group(b[3], b[4], b[5]));
      GroupsDiffer(a[0], a[1], a[2], b[0], b[1], b[2]);
      GroupsDiffer(a[3], a[4], a[5], b[3], b[4], b[5]);
      SixBytes(a);
      SixBytes(b);
    }
  }

  /** The alphabet of the URL-safe variant, value by value. */
  lemma Alphabet(n: Sextet)
    ensures n < 26 ==> Digit(n) == "ABCDEFGHIJKLMNOPQRSTUVWXYZ"[n]
    ensures 26 <= n < 52 ==> Digit(n) == "abcdefghijklmnopqrstuvwxyz"[n - 26]
    ensures 52 <= n < 62 ==> Digit(n) == "0123456789"[n - 52]
    ensures Digit(62) == '-' && Digit(63) == '_'
  {
  }

  /** The sextets are the digits of the same number. */
  lemma SextetsAreTheNumber(a: Byte, b: Byte, c: Byte)
    ensures var s := Sextets(a, b, c);
      a * 65536 + b * 256 + c == s.0 * 262144 + s.1 * 4096 + s.2 * 64 + s.3
  {
  }

  /** The last test vector of section 10 of RFC 4648, "foobar". */
  lemma Foobar()
    ensures Encode([102, 111, 111, 98, 97, 114]) == "Zm9vYmFy"
  {
    assert Group(102, 111, 111) == "Zm9v";
    assert Group(98, 97, 114) == "YmFy";
  }
}
