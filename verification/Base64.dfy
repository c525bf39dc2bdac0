/**
  The canonical base64 check of attachment descriptors: a forgiving decoder,
  followed by a comparison with the re-encoded bytes.
 */
module Base64 {
  import opened Common

  type Byte = b: int | 0 <= b < 256
  type Bytes = seq<Byte>
  type Sextet = n: int | 0 <= n < 64

  // ---------------------------------------------------------------------------
  // The alphabet of section 4 of RFC 4648
  // ---------------------------------------------------------------------------

  function Letter(n: Sextet): char {
    if n < 26 then 'A' + n as char
    else if n < 52 then 'a' + (n - 26) as char
    else if n < 62 then '0' + (n - 52) as char
    else if n == 62 then '+'
    else '/'
  }

  predicate InAlphabet(c: char) {
    'A' <= c <= 'Z' || 'a' <= c <= 'z' || '0' <= c <= '9' || c == '+' || c == '/'
  }

  function Value(c: char): (n: Sextet)
    requires InAlphabet(c)
    ensures Letter(n) == c
  {
    if 'A' <= c <= 'Z' then (c - 'A') as int
    else if 'a' <= c <= 'z' then (c - 'a') as int + 26
    else if '0' <= c <= '9' then (c - '0') as int + 52
    else if c == '+' then 62
    else 63
  }

  lemma LetterValue(n: Sextet)
    ensures InAlphabet(Letter(n)) && Value(Letter(n)) == n
  {
  }

  predicate AllInAlphabet(s: string) {
    forall i :: 0 <= i < |s| ==> InAlphabet(s[i])
  }

  function ToLetters(ss: seq<Sextet>): (r: string)
    ensures |r| == |ss|
  {
    seq(|ss|, i requires 0 <= i < |ss| => Letter(ss[i]))
  }

  function ToSextets(s: string): (r: seq<Sextet>)
    requires AllInAlphabet(s)
    ensures |r| == |s|
  {
    seq(|s|, i requires 0 <= i < |s| => Value(s[i]))
  }

  lemma LettersAndBack(ss: seq<Sextet>)
    ensures AllInAlphabet(ToLetters(ss)) && ToSextets(ToLetters(ss)) == ss
  {
    forall i | 0 <= i < |ss| ensures InAlphabet(ToLetters(ss)[i]) && Value(ToLetters(ss)[i]) == ss[i] {
      LetterValue(ss[i]);
    }
  }

  lemma SextetsAndBack(s: string)
    requires AllInAlphabet(s)
    ensures ToLetters(ToSextets(s)) == s
  {
  }

  // ---------------------------------------------------------------------------
  // Three bytes in four sextets
  // ---------------------------------------------------------------------------

  function First(b0: Byte): Sextet { b0 / 4 }
  function Second(b0: Byte, b1: Byte): Sextet { b0 % 4 * 16 + b1 / 16 }
  function Third(b1: Byte, b2: Byte): Sextet { b1 % 16 * 4 + b2 / 64 }
  function Fourth(b2: Byte): Sextet { b2 % 64 }
  function LastOfOne(b0: Byte): Sextet { b0 % 4 * 16 }
  function LastOfTwo(b1: Byte): Sextet { b1 % 16 * 4 }

  function Byte0(s0: Sextet, s1: Sextet): Byte { s0 * 4 + s1 / 16 }
  function Byte1(s1: Sextet, s2: Sextet): Byte { s1 % 16 * 16 + s2 / 4 }
  function Byte2(s2: Sextet, s3: Sextet): Byte { s2 % 4 * 64 + s3 }

  datatype Triple = Triple(b0: Byte, b1: Byte, b2: Byte)
  datatype Quad = Quad(s0: Sextet, s1: Sextet, s2: Sextet, s3: Sextet)

  function Spread(t: Triple): Quad {
    Quad(First(t.b0), Second(t.b0, t.b1), Third(t.b1, t.b2), Fourth(t.b2))
  }

  function Gather(q: Quad): Triple {
    Triple(Byte0(q.s0, q.s1), Byte1(q.s1, q.s2), Byte2(q.s2, q.s3))
  }

  /** Quotient and remainder of a number put together from two parts. */
  lemma Parts4(high: nat, low: nat)
    requires low < 4
    ensures (high * 4 + low) / 4 == high && (high * 4 + low) % 4 == low
  {
  }

  lemma Parts16(high: nat, low: nat)
    requires low < 16
    ensures (high * 16 + low) / 16 == high && (high * 16 + low) % 16 == low
  {
  }

  lemma Parts64(high: nat, low: nat)
    requires low < 64
    ensures (high * 64 + low) / 64 == high && (high * 64 + low) % 64 == low
  {
  }

  lemma GatherSpread(t: Triple)
    ensures Gather(Spread(t)) == t
  {
    Parts16(t.b0 % 4, t.b1 / 16);
    Parts4(t.b1 % 16, t.b2 / 64);
    assert t.b0 == t.b0 / 4 * 4 + t.b0 % 4;
    assert t.b1 == t.b1 / 16 * 16 + t.b1 % 16;
    assert t.b2 == t.b2 / 64 * 64 + t.b2 % 64;
  }

  lemma SpreadGather(q: Quad)
    ensures Spread(Gather(q)) == q
  {
    Parts4(q.s0, q.s1 / 16);
    Parts16(q.s1 % 16, q.s2 / 4);
    Parts64(q.s2 % 4, q.s3);
    assert q.s1 == q.s1 / 16 * 16 + q.s1 % 16;
    assert q.s2 == q.s2 / 4 * 4 + q.s2 % 4;
  }

  function Bytes3(t: Triple): Bytes { [t.b0, t.b1, t.b2] }

  function Sextets4(q: Quad): seq<Sextet> { [q.s0, q.s1, q.s2, q.s3] }

  /** The sextets of a byte string; the last one is filled up with zero bits. */
  function Split(bs: Bytes): (r: seq<Sextet>)
    ensures |r| == SextetCount(|bs|)
  {
    if bs == [] then []
    else if |bs| == 1 then [First(bs[0]), LastOfOne(bs[0])]
    else if |bs| == 2 then [First(bs[0]), Second(bs[0], bs[1]), LastOfTwo(bs[1])]
    else Sextets4(Spread(Triple(bs[0], bs[1], bs[2]))) + Split(bs[3..])
  }

  function SextetCount(n: nat): nat {
    if n == 0 then 0 else if n == 1 then 2 else if n == 2 then 3 else 4 + SextetCount(n - 3)
  }

  /** A count of letters that is not one more than a multiple of four. */
  predicate Whole(k: nat) {
    if k < 4 then k != 1 else Whole(k - 4)
  }

  lemma {:induction false} WholeIs(k: nat)
    ensures Whole(k) <==> k % 4 != 1
  {
    if k >= 4 { WholeIs(k - 4); }
  }

  lemma {:induction false} CountIsWhole(n: nat)
    ensures Whole(SextetCount(n))
  {
    if n >= 3 { CountIsWhole(n - 3); }
  }

  /** Six bits a letter; bits that do not fill a byte are dropped. */
  function Join(ss: seq<Sextet>): Bytes
    requires Whole(|ss|)
  {
    if ss == [] then []
    else if |ss| == 2 then [Byte0(ss[0], ss[1])]
    else if |ss| == 3 then [Byte0(ss[0], ss[1]), Byte1(ss[1], ss[2])]
    else Bytes3(Gather(Quad(ss[0], ss[1], ss[2], ss[3]))) + Join(ss[4..])
  }

  lemma JoinStep(q: Quad, rest: seq<Sextet>)
    requires Whole(|rest|)
    ensures Join(Sextets4(q) + rest) == Bytes3(Gather(q)) + Join(rest)
  {
    var ss := Sextets4(q) + rest;
    assert ss[4..] == rest;
    assert Quad(ss[0], ss[1], ss[2], ss[3]) == q;
  }

  lemma SplitStep(t: Triple, rest: Bytes)
    ensures Split(Bytes3(t) + rest) == Sextets4(Spread(t)) + Split(rest)
  {
    var bs := Bytes3(t) + rest;
    assert bs[3..] == rest;
    assert Triple(bs[0], bs[1], bs[2]) == t;
  }

  lemma OneByte(b: Byte)
    ensures Byte0(First(b), LastOfOne(b)) == b && LastOfOne(b) % 16 == 0
  {
  }

  lemma TwoBytes(b: Byte, c: Byte)
    ensures Byte0(First(b), Second(b, c)) == b && Byte1(Second(b, c), LastOfTwo(c)) == c && LastOfTwo(c) % 4 == 0
  {
  }

  lemma TwoSextets(a: Sextet, b: Sextet)
    requires b % 16 == 0
    ensures First(Byte0(a, b)) == a && LastOfOne(Byte0(a, b)) == b
  {
  }

  lemma ThreeSextets(a: Sextet, b: Sextet, c: Sextet)
    requires c % 4 == 0
    ensures First(Byte0(a, b)) == a && Second(Byte0(a, b), Byte1(b, c)) == b && LastOfTwo(Byte1(b, c)) == c
  {
  }

  lemma {:induction false} CountOf(q: nat, r: nat)
    requires r < 3
    ensures SextetCount(3 * q + r) == 4 * q + if r == 0 then 0 else r + 1
  {
    if q > 0 {
      CountOf(q - 1, r);
      assert 3 * q + r - 3 == 3 * (q - 1) + r;
    }
  }

  lemma SextetCountIs(n: nat)
    ensures SextetCount(n) == 4 * (n / 3) + (if n % 3 == 0 then 0 else n % 3 + 1)
    ensures SextetCount(n) % 4 == if n % 3 == 0 then 0 else n % 3 + 1
  {
    CountOf(n / 3, n % 3);
  }

  lemma {:induction false} JoinSplit(bs: Bytes)
    ensures Whole(|Split(bs)|) && Join(Split(bs)) == bs
  {
    CountIsWhole(|bs|);
    if |bs| == 1 {
      OneByte(bs[0]);
    } else if |bs| == 2 {
      TwoBytes(bs[0], bs[1]);
    } else if |bs| >= 3 {
      var t := Triple(bs[0], bs[1], bs[2]);
      assert bs == Bytes3(t) + bs[3..];
      SplitStep(t, bs[3..]);
      JoinSplit(bs[3..]);
      JoinStep(Spread(t), Split(bs[3..]));
      GatherSpread(t);
    }
  }

  /** No stray bits behind the last byte: a last group of two letters leaves four bits, one of three leaves two. */
  predicate ZeroTrailing(ss: seq<Sextet>) {
    if |ss| >= 4 then ZeroTrailing(ss[4..])
    else (|ss| == 2 ==> ss[1] % 16 == 0) && (|ss| == 3 ==> ss[2] % 4 == 0)
  }

  /** Joining loses nothing exactly when the bits that do not fill a byte are zero. */
  lemma {:induction false} SplitJoin(ss: seq<Sextet>)
    requires Whole(|ss|)
    ensures Split(Join(ss)) == ss <==> ZeroTrailing(ss)
  {
    if |ss| == 2 {
      if ss[1] % 16 == 0 { TwoSextets(ss[0], ss[1]); }
      OneByte(Byte0(ss[0], ss[1]));
    } else if |ss| == 3 {
      if ss[2] % 4 == 0 { ThreeSextets(ss[0], ss[1], ss[2]); }
      TwoBytes(Byte0(ss[0], ss[1]), Byte1(ss[1], ss[2]));
    } else if |ss| >= 4 {
      var q := Quad(ss[0], ss[1], ss[2], ss[3]);
      assert ss == Sextets4(q) + ss[4..];
      JoinStep(q, ss[4..]);
      SplitJoin(ss[4..]);
      SplitStep(Gather(q), Join(ss[4..]));
      SpreadGather(q);
    }
  }

  lemma {:induction false} SplitTrailing(bs: Bytes)
    ensures ZeroTrailing(Split(bs))
  {
    if |bs| == 1 {
      OneByte(bs[0]);
    } else if |bs| == 2 {
      TwoBytes(bs[0], bs[1]);
    } else if |bs| >= 3 {
      SplitTrailing(bs[3..]);
      assert Split(bs)[4..] == Split(bs[3..]);
    }
  }

  // ---------------------------------------------------------------------------
  // Encoding
  // ---------------------------------------------------------------------------

  function Padding(n: nat): (p: string)
    ensures |p| == (3 - n % 3) % 3
  {
    if n % 3 == 1 then "==" else if n % 3 == 2 then "=" else ""
  }

  /** `btoa`. */
  function Encode(bs: Bytes): string {
    ToLetters(Split(bs)) + Padding(|bs|)
  }

  // ---------------------------------------------------------------------------
  // Forgiving decoding
  // ---------------------------------------------------------------------------

  predicate IsSpace(c: char) {
    c == ' ' || c == '\t' || c == '\n' || c == '\r' || c == 12 as char
  }

  function WithoutSpaces(s: string): string {
    if s == "" then "" else (if IsSpace(s[0]) then "" else [s[0]]) + WithoutSpaces(s[1..])
  }

  /** At most two padding signs go, and only where the length is a multiple of four. */
  function WithoutPadding(s: string): string {
    if |s| % 4 != 0 || s == "" || s[|s| - 1] != '=' then s
    else if s[|s| - 2] == '=' then s[..|s| - 2]
    else s[..|s| - 1]
  }

  /** `atob`. */
  function Decode(value: string): Option<Bytes> {
    var s := WithoutPadding(WithoutSpaces(value));
    if |s| % 4 == 1 || !AllInAlphabet(s) then None
    else
      WholeIs(|s|);
      Some(Join(ToSextets(s)))
  }

  // ---------------------------------------------------------------------------
  // The check
  // ---------------------------------------------------------------------------

  /** The value is the encoding of the bytes, and there are as many as expected. */
  predicate Encodes(value: string, expectedBytes: nat, bs: Bytes) {
    value != "" && |bs| == expectedBytes && Encode(bs) == value
  }

  method DecodeBase64(value: string, expectedBytes: nat) returns (result: Option<Bytes>)
    ensures result.Some? <==> exists bs :: Encodes(value, expectedBytes, bs)
    ensures result.Some? ==> Encodes(value, expectedBytes, result.value)
    ensures forall bs :: Encodes(value, expectedBytes, bs) ==> result == Some(bs)
  {
    EncodedDecodes(value, expectedBytes);
    result := None;
    if value == "" { return; }
    var decoded := Decode(value);
    if decoded.None? { return; }
    var bytes := decoded.value;
    if |bytes| != expectedBytes { return; }
    var canonical := Copy(bytes);
    if Encode(canonical) != value { return; }
    assert Encodes(value, expectedBytes, bytes);
    result := Some(bytes);
  }

  /** The loop that rebuilds the binary string byte by byte. */
  method Copy(bytes: Bytes) returns (canonical: Bytes)
    ensures canonical == bytes
  {
    canonical := [];
    var i := 0;
    while i < |bytes|
      invariant i <= |bytes| && canonical == bytes[..i]
    {
      canonical := canonical + [bytes[i]];
      i := i + 1;
    }
  }

  lemma EncodedDecodes(value: string, n: nat)
    ensures forall bs :: Encodes(value, n, bs) ==> Decode(value) == Some(bs)
  {
    forall bs | Encodes(value, n, bs) ensures Decode(value) == Some(bs) {
      DecodeEncode(bs);
    }
  }

  // ---------------------------------------------------------------------------
  // Decoding undoes encoding
  // ---------------------------------------------------------------------------

  lemma {:induction false} NoSpaces(s: string)
    requires forall i :: 0 <= i < |s| ==> !IsSpace(s[i])
    ensures WithoutSpaces(s) == s
  {
    if s != "" { NoSpaces(s[1..]); }
  }

  lemma LetterIsNoSpace(c: char)
    requires InAlphabet(c) || c == '='
    ensures !IsSpace(c) && (InAlphabet(c) ==> c != '=')
  {
  }

  lemma PaddedIsStripped(letters: string, n: nat)
    requires AllInAlphabet(letters) && |letters| == SextetCount(n)
    ensures WithoutPadding(WithoutSpaces(letters + Padding(n))) == letters
  {
    var s := letters + Padding(n);
    forall i | 0 <= i < |s| ensures !IsSpace(s[i]) {
      LetterIsNoSpace(s[i]);
    }
    NoSpaces(s);
    PaddingGoes(letters, n);
  }

  lemma PaddingGoes(letters: string, n: nat)
    requires AllInAlphabet(letters) && |letters| == SextetCount(n)
    ensures WithoutPadding(letters + Padding(n)) == letters
  {
    var s := letters + Padding(n);
    SextetCountIs(n);
    if letters != [] { LetterIsNoSpace(letters[|letters| - 1]); }
    assert s[..|letters|] == letters;
  }

  lemma DecodeEncode(bs: Bytes)
    ensures Decode(Encode(bs)) == Some(bs)
  {
    var letters := ToLetters(Split(bs));
    LettersAndBack(Split(bs));
    PaddedIsStripped(letters, |bs|);
    WholeIs(|letters|);
    JoinSplit(bs);
  }

  // ---------------------------------------------------------------------------
  // What the encodings of n bytes look like
  // ---------------------------------------------------------------------------

  /** Letters, then the padding that fills up a multiple of four, and zero trailing bits (section 3.5 of RFC 4648). */
  predicate Canonical(value: string, n: nat) {
    var count := SextetCount(n);
    && count <= |value|
    && value[count..] == Padding(n)
    && AllInAlphabet(value[..count])
    && ZeroTrailing(ToSextets(value[..count]))
  }

  /** Accepted strings and byte strings of the expected length are in bijection: the accepted ones are the canonical ones. */
  lemma AcceptedIsCanonical(value: string, n: nat)
    ensures Canonical(value, n) <==> exists bs :: |bs| == n && Encode(bs) == value
  {
    if Canonical(value, n) {
      var letters := value[..SextetCount(n)];
      var ss := ToSextets(letters);
      CountIsWhole(n);
      SplitJoin(ss);
      JoinLength(ss, n);
      SextetsAndBack(letters);
      assert value == letters + Padding(n);
      assert Encode(Join(ss)) == value;
    }
    if bs :| |bs| == n && Encode(bs) == value {
      LettersAndBack(Split(bs));
      SplitTrailing(bs);
      assert value[..SextetCount(n)] == ToLetters(Split(bs));
    }
  }

  lemma {:induction false} JoinLength(ss: seq<Sextet>, n: nat)
    requires |ss| == SextetCount(n) && Whole(|ss|)
    ensures |Join(ss)| == n
  {
    if n >= 3 { JoinLength(ss[4..], n - 3); }
  }

  /** Different byte strings have different encodings. */
  lemma EncodeInjective(a: Bytes, b: Bytes)
    requires Encode(a) == Encode(b)
    ensures a == b
  {
    DecodeEncode(a);
    DecodeEncode(b);
  }

  // ---------------------------------------------------------------------------
  // The letters, bit by bit
  // ---------------------------------------------------------------------------

  const UPPER := "ABCDEFGHIJKLMNOPQRSTUVWXYZ"
  const LOWER := "abcdefghijklmnopqrstuvwxyz"
  const FIGURES := "0123456789+/"
  const ALPHABET: string := UPPER + LOWER + FIGURES

  function Octet(bs: Bytes, i: nat): Byte {
    if i < |bs| then bs[i] else 0
  }

  function Word(a: Byte, b: Byte, c: Byte): nat {
    65536 * a + 256 * b + c
  }

  /** The t-th group of 24 bits, with zero bits behind the last byte. */
  function Group(bs: Bytes, t: nat): nat {
    Word(Octet(bs, 3 * t), Octet(bs, 3 * t + 1), Octet(bs, 3 * t + 2))
  }

  /** The letter of a group for its six bits of the given weight. */
  function GroupLetter(word: nat, weight: nat): char
    requires weight > 0
  {
    ALPHABET[word / weight % 64]
  }

  function Weight(j: nat): (w: nat)
    ensures w > 0
  {
    if j == 0 then 262144 else if j == 1 then 4096 else if j == 2 then 64 else 1
  }

  lemma LetterIs(n: Sextet)
    ensures Letter(n) == ALPHABET[n]
  {
    if n < 26 { assert Letter(n) == UPPER[n]; }
    else if n < 52 { assert Letter(n) == LOWER[n - 26]; }
    else { assert Letter(n) == FIGURES[n - 52]; }
  }

  lemma FirstBits(a: Byte, b: Byte, c: Byte)
    ensures (65536 * a + 256 * b + c) / 262144 % 64 == First(a)
  {
    Parts4(a / 4, a % 4);
    assert 65536 * a + 256 * b + c == 262144 * (a / 4) + (65536 * (a % 4) + 256 * b + c);
  }

  lemma SecondBits(a: Byte, b: Byte, c: Byte)
    ensures (65536 * a + 256 * b + c) / 4096 % 64 == Second(a, b)
  {
    var q := 64 * (a / 4) + Second(a, b);
    assert 65536 * a + 256 * b + c == 4096 * q + (256 * (b % 16) + c);
    assert (65536 * a + 256 * b + c) / 4096 == q;
    Parts64(a / 4, Second(a, b));
  }

  lemma ThirdBits(a: Byte, b: Byte, c: Byte)
    ensures (65536 * a + 256 * b + c) / 64 % 64 == Third(b, c)
  {
    var q := 64 * (16 * a + b / 16) + Third(b, c);
    assert 65536 * a + 256 * b + c == 64 * q + c % 64;
    assert (65536 * a + 256 * b + c) / 64 == q;
    Parts64(16 * a + b / 16, Third(b, c));
  }

  lemma FourthBits(a: Byte, b: Byte, c: Byte)
    ensures (65536 * a + 256 * b + c) / 1 % 64 == Fourth(c)
  {
    Parts64(1024 * a + 4 * b + c / 64, c % 64);
    assert 65536 * a + 256 * b + c == (1024 * a + 4 * b + c / 64) * 64 + c % 64;
  }

  function SextetOf(a: Byte, b: Byte, c: Byte, j: nat): Sextet {
    if j == 0 then First(a) else if j == 1 then Second(a, b) else if j == 2 then Third(b, c) else Fourth(c)
  }

  lemma WordBits(a: Byte, b: Byte, c: Byte, j: nat)
    requires j < 4
    ensures Letter(SextetOf(a, b, c, j)) == GroupLetter(Word(a, b, c), Weight(j))
  {
    FirstBits(a, b, c);
    SecondBits(a, b, c);
    ThirdBits(a, b, c);
    FourthBits(a, b, c);
    LetterIs(SextetOf(a, b, c, j));
  }

  /** The missing bytes of the last group count as zero. */
  lemma FirstSextets(bs: Bytes, j: nat)
    requires j < |Split(bs)| && j < 4
    ensures Split(bs)[j] == SextetOf(Octet(bs, 0), Octet(bs, 1), Octet(bs, 2), j)
  {
    if |bs| == 1 {
      assert LastOfOne(bs[0]) == Second(bs[0], 0);
    } else if |bs| == 2 {
      assert LastOfTwo(bs[1]) == Third(bs[1], 0);
    }
  }

  lemma FirstGroupAt(bs: Bytes, j: nat)
    requires j < |Split(bs)| && j < 4
    ensures Letter(Split(bs)[j]) == GroupLetter(Group(bs, 0), Weight(j))
  {
    FirstSextets(bs, j);
    WordBits(Octet(bs, 0), Octet(bs, 1), Octet(bs, 2), j);
  }

  lemma LaterGroup(bs: Bytes, t: nat)
    requires |bs| >= 3
    ensures Group(bs, t + 1) == Group(bs[3..], t)
  {
    forall i: nat ensures Octet(bs, i + 3) == Octet(bs[3..], i) {}
    assert 3 * (t + 1) == 3 * t + 3;
    assert Octet(bs, 3 * t + 3) == Octet(bs[3..], 3 * t);
    assert Octet(bs, 3 * t + 1 + 3) == Octet(bs[3..], 3 * t + 1);
    assert Octet(bs, 3 * t + 2 + 3) == Octet(bs[3..], 3 * t + 2);
  }

  lemma {:induction false} SextetAt(bs: Bytes, t: nat, j: nat)
    requires 4 * t + j < |Split(bs)| && j < 4
    ensures Letter(Split(bs)[4 * t + j]) == GroupLetter(Group(bs, t), Weight(j))
  {
    if t == 0 {
      FirstGroupAt(bs, j);
    } else {
      SextetAt(bs[3..], t - 1, j);
      LaterGroup(bs, t - 1);
      assert Split(bs)[4 * t + j] == Split(bs[3..])[4 * (t - 1) + j];
    }
  }

  lemma SextetsNeeded(n: nat)
    ensures SextetCount(n) == (8 * n + 5) / 6
    ensures SextetCount(n) + (3 - n % 3) % 3 == 4 * ((n + 2) / 3)
  {
    CountOf(n / 3, n % 3);
  }

  /** The encoding letter by letter, as section 4 of RFC 4648 lays it out: six bits a letter, the rest filled with padding. */
  lemma EncodedAt(bs: Bytes, k: nat)
    requires k < |Encode(bs)|
    ensures |Encode(bs)| == 4 * ((|bs| + 2) / 3)
    ensures Encode(bs)[k] == if k < (8 * |bs| + 5) / 6 then GroupLetter(Group(bs, k / 4), Weight(k % 4)) else '='
  {
    SextetsNeeded(|bs|);
    if k < |Split(bs)| { SextetAt(bs, k / 4, k % 4); }
  }
}
