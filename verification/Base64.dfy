/** The gateway's base64 codec, section 4 of RFC 4648, with its scratch arrays of three and four octets. */
module Base64 {

  const UPPER: string := "ABCDEFGHIJKLMNOPQRSTUVWXYZ"
  const LOWER: string := "abcdefghijklmnopqrstuvwxyz"
  const DIGITS: string := "0123456789+/"
  const ALPHABET: string := UPPER + LOWER + DIGITS
  const NPOS: bv8 := 255   // std::string::npos, cut down to an octet
  const PAD: char := '='

  // ---- letters and their values ----

  /** Where a letter stands in the alphabet, computed instead of searched; 64 for any other character. */
  function Position(c: char): (v: nat)
    ensures v <= 64
  {
    if 'A' <= c <= 'Z' then c as int - 'A' as int
    else if 'a' <= c <= 'z' then c as int - 'a' as int + 26
    else if '0' <= c <= '9' then c as int - '0' as int + 52
    else if c == '+' then 62
    else if c == '/' then 63
    else 64
  }

  predicate IsBase64(c: char) {
    Position(c) < 64
  }

  lemma UpperCase(v: nat)
    requires v < 26
    ensures |UPPER| == 26 && UPPER[v] as int == 'A' as int + v
  {
    match v {
      case 0 => case 1 => case 2 => case 3 => case 4 => case 5 => case 6 => case 7 => case 8 =>
      case 9 => case 10 => case 11 => case 12 => case 13 => case 14 => case 15 => case 16 => case 17 =>
      case 18 => case 19 => case 20 => case 21 => case 22 => case 23 => case 24 => case 25 =>
    }
  }

  lemma LowerCase(v: nat)
    requires v < 26
    ensures |LOWER| == 26 && LOWER[v] as int == 'a' as int + v
  {
    match v {
      case 0 => case 1 => case 2 => case 3 => case 4 => case 5 => case 6 => case 7 => case 8 =>
      case 9 => case 10 => case 11 => case 12 => case 13 => case 14 => case 15 => case 16 => case 17 =>
      case 18 => case 19 => case 20 => case 21 => case 22 => case 23 => case 24 => case 25 =>
    }
  }

  lemma DigitOrSign(v: nat)
    requires v < 12
    ensures |DIGITS| == 12
    ensures DIGITS[v] as int == if v < 10 then '0' as int + v else if v == 10 then '+' as int else '/' as int
  {
    match v {
      case 0 => case 1 => case 2 => case 3 => case 4 => case 5 => case 6 => case 7 => case 8 => case 9 => case 10 => case 11 =>
    }
  }

  lemma PositionOfLetter(v: nat)
    requires v < 64
    ensures |ALPHABET| == 64 && Position(ALPHABET[v]) == v
  {
    if v < 26 {
      UpperCase(v);
    } else if v < 52 {
      LowerCase(v - 26);
    } else {
      DigitOrSign(v - 52);
    }
  }

  /** base64_chars[v] */
  function Letter(v: bv8): char
    requires v < 64
  {
    PositionOfLetter(v as nat);
    ALPHABET[v as nat]
  }

  /** base64_chars.find, cut down to an octet: the position of the letter, or npos. */
  function Find(c: char): bv8 {
    if IsBase64(c) then Position(c) as bv8 else NPOS
  }

  lemma FindLetter(v: bv8)
    requires v < 64
    ensures IsBase64(Letter(v)) && Find(Letter(v)) == v
  {
    PositionOfLetter(v as nat);
  }

  lemma LetterFind(c: char)
    requires IsBase64(c)
    ensures Find(c) < 64 && Letter(Find(c)) == c
  {
    hide Position;
    OctetOf(Position(c));
    PositionOfLetter(Position(c));
    SamePosition(c, Letter(Find(c)));
  }

  lemma OctetOf(n: nat)
    requires n < 256
    ensures (n as bv8) as nat == n && (n < 64 ==> n as bv8 < 64)
  {
  }

  lemma SamePosition(c: char, d: char)
    requires IsBase64(c) && Position(c) == Position(d)
    ensures c == d
  {
  }

  lemma PadIsNoLetter()
    ensures !IsBase64(PAD) && Find('\0') == NPOS
  {
  }

  // ---- one group: three octets, four 6-bit values ----

  function Value0(a: bv8): (v: bv8)
    ensures v < 64
  {
    (a & 0xfc) >> 2
  }

  function Value1(a: bv8, b: bv8): (v: bv8)
    ensures v < 64
  {
    ((a & 0x03) << 4) + ((b & 0xf0) >> 4)
  }

  function Value2(b: bv8, c: bv8): (v: bv8)
    ensures v < 64
  {
    ((b & 0x0f) << 2) + ((c & 0xc0) >> 6)
  }

  function Value3(c: bv8): (v: bv8)
    ensures v < 64
  {
    c & 0x3f
  }

  function Octet0(v0: bv8, v1: bv8): bv8 {
    (v0 << 2) + ((v1 & 0x30) >> 4)
  }

  function Octet1(v1: bv8, v2: bv8): bv8 {
    ((v1 & 0xf) << 4) + ((v2 & 0x3c) >> 2)
  }

  function Octet2(v2: bv8, v3: bv8): bv8 {
    ((v2 & 0x3) << 6) + v3
  }

  /** The octets come back from the values. */
  lemma OctetsOfValues(a: bv8, b: bv8, c: bv8)
    ensures Octet0(Value0(a), Value1(a, b)) == a
    ensures Octet1(Value1(a, b), Value2(b, c)) == b
    ensures Octet2(Value2(b, c), Value3(c)) == c
  {
  }

  /** And the values from the octets. */
  lemma ValuesOfOctets(v0: bv8, v1: bv8, v2: bv8, v3: bv8)
    requires v0 < 64 && v1 < 64 && v2 < 64 && v3 < 64
    ensures var a, b, c := Octet0(v0, v1), Octet1(v1, v2), Octet2(v2, v3);
            Value0(a) == v0 && Value1(a, b) == v1 && Value2(b, c) == v2 && Value3(c) == v3
  {
  }

  /** A group is read as one 24-bit number, most significant part first, as the standard has it. */
  lemma GroupIsNumber(a: bv8, b: bv8, c: bv8)
    ensures ((Value0(a) as bv24) << 18) | ((Value1(a, b) as bv24) << 12) | ((Value2(b, c) as bv24) << 6) | Value3(c) as bv24
            == ((a as bv24) << 16) | ((b as bv24) << 8) | c as bv24
  {
  }

  function Group(a: bv8, b: bv8, c: bv8): (s: string)
    ensures |s| == 4
  {
    [Letter(Value0(a)), Letter(Value1(a, b)), Letter(Value2(b, c)), Letter(Value3(c))]
  }

  function Ungroup(s: string): (b: seq<bv8>)
    requires |s| == 4
    ensures |b| == 3
  {
    var v0, v1, v2, v3 := Find(s[0]), Find(s[1]), Find(s[2]), Find(s[3]);
    [Octet0(v0, v1), Octet1(v1, v2), Octet2(v2, v3)]
  }

  predicate AllBase64(s: string) {
    forall i :: 0 <= i < |s| ==> IsBase64(s[i])
  }

  lemma UngroupGroup(a: bv8, b: bv8, c: bv8)
    ensures AllBase64(Group(a, b, c)) && Ungroup(Group(a, b, c)) == [a, b, c]
  {
    hide Letter, Find, IsBase64, Octet0, Octet1, Octet2, Value0, Value1, Value2, Value3;
    FindLetter(Value0(a));
    FindLetter(Value1(a, b));
    FindLetter(Value2(b, c));
    FindLetter(Value3(c));
    OctetsOfValues(a, b, c);
  }

  lemma GroupUngroup(s: string)
    requires |s| == 4 && AllBase64(s)
    ensures var b := Ungroup(s); Group(b[0], b[1], b[2]) == s
  {
    hide Letter, Find, IsBase64, Octet0, Octet1, Octet2, Value0, Value1, Value2, Value3;
    LetterFind(s[0]);
    LetterFind(s[1]);
    LetterFind(s[2]);
    LetterFind(s[3]);
    ValuesOfOctets(Find(s[0]), Find(s[1]), Find(s[2]), Find(s[3]));
  }

  // ---- whole groups ----

  function Groups(b: seq<bv8>): (s: string)
    requires |b| % 3 == 0
    ensures 3 * |s| == 4 * |b| && |s| % 4 == 0
  {
    if b == [] then ""
    else
      var n := |b| - 3;
      Groups(b[..n]) + Group(b[n], b[n + 1], b[n + 2])
  }

  function Ungroups(s: string): (b: seq<bv8>)
    requires |s| % 4 == 0
    ensures 4 * |b| == 3 * |s| && |b| % 3 == 0
  {
    if s == "" then []
    else
      var n := |s| - 4;
      Ungroups(s[..n]) + Ungroup(s[n..])
  }

  lemma NoLetters()
    ensures AllBase64("")
  {
  }

  lemma AllBase64Sum(s: string, t: string)
    requires AllBase64(s) && AllBase64(t)
    ensures AllBase64(s + t)
  {
    hide IsBase64;
  }

  lemma OneMoreGroup(front: string, last: string)
    requires |front| % 4 == 0 && |last| == 4
    ensures Ungroups(front + last) == Ungroups(front) + Ungroup(last)
  {
    hide Ungroup;
    assert (front + last)[..|front|] == front && (front + last)[|front|..] == last;
  }

  lemma OneMoreTriple(front: seq<bv8>, last: seq<bv8>)
    requires |front| % 3 == 0 && |last| == 3
    ensures Groups(front + last) == Groups(front) + Group(last[0], last[1], last[2])
  {
    hide Group;
    assert (front + last)[..|front|] == front && (front + last)[|front|..] == last;
  }

  lemma {:induction false} UngroupsGroups(b: seq<bv8>)
    requires |b| % 3 == 0
    ensures AllBase64(Groups(b)) && Ungroups(Groups(b)) == b
  {
    hide Group, Ungroup, AllBase64;
    if b == [] {
      NoLetters();
    } else {
      hide Groups, Ungroups;
      var front, last := b[..|b| - 3], b[|b| - 3..];
      UngroupsGroups(front);
      UngroupGroup(last[0], last[1], last[2]);
      OneMoreTriple(front, last);
      var group := Group(last[0], last[1], last[2]);
      AllBase64Sum(Groups(front), group);
      OneMoreGroup(Groups(front), group);
      assert b == front + last && last == [last[0], last[1], last[2]];
      assert Groups(b) == Groups(front) + group;
    }
  }

  lemma {:induction false} GroupsUngroups(s: string)
    requires |s| % 4 == 0 && AllBase64(s)
    ensures Groups(Ungroups(s)) == s
  {
    hide Group, Ungroup, IsBase64;
    if s != "" {
      hide Groups, Ungroups;
      var front, last := s[..|s| - 4], s[|s| - 4..];
      GroupsUngroups(front);
      GroupUngroup(last);
      assert s == front + last;
      OneMoreGroup(front, last);
      OneMoreTriple(Ungroups(front), Ungroup(last));
    }
  }

  // ---- a last group that is not full ----

  /** One or two octets, filled up with zeros, and padded on the wire. */
  function Tail(t: seq<bv8>): (s: string)
    requires |t| < 3
    ensures |s| == if t == [] then 0 else 4
  {
    if t == [] then ""
    else if |t| == 1 then Group(t[0], 0, 0)[..2] + [PAD, PAD]
    else Group(t[0], t[1], 0)[..3] + [PAD]
  }

  /** Up to three letters; the missing ones read as npos. */
  function Untail(s: string): (t: seq<bv8>)
    requires |s| < 4
    ensures |t| == if s == "" then 0 else |s| - 1
  {
    if s == "" then []
    else
      var v1 := if |s| > 1 then Find(s[1]) else NPOS;
      var v2 := if |s| > 2 then Find(s[2]) else NPOS;
      [Octet0(Find(s[0]), v1), Octet1(v1, v2)][..|s| - 1]
  }

  lemma UntailTail(t: seq<bv8>)
    requires 0 < |t| < 3
    ensures AllBase64(Tail(t)[..|t| + 1]) && !IsBase64(Tail(t)[|t| + 1])
    ensures Untail(Tail(t)[..|t| + 1]) == t
  {
    hide Letter, Find, IsBase64, Octet0, Octet1, Value0, Value1, Value2, Value3;
    PadIsNoLetter();
    var b := if |t| > 1 then t[1] else 0;
    FindLetter(Value0(t[0]));
    FindLetter(Value1(t[0], b));
    FindLetter(Value2(b, 0));
    OctetsOfValues(t[0], b, 0);
  }

  // ---- the codec ----

  /** base64_encode */
  function Encoded(b: seq<bv8>): (s: string)
    ensures |s| == (|b| + 2) / 3 * 4
  {
    var m := |b| - |b| % 3;
    Groups(b[..m]) + Tail(b[m..])
  }

  /** The alphabet of table 1 of RFC 4648. */
  lemma LetterIs(v: bv8)
    requires v < 64
    ensures var n := v as int;
            Letter(v) as int == if n < 26 then 'A' as int + n
                                else if n < 52 then 'a' as int + (n - 26)
                                else if n < 62 then '0' as int + (n - 52)
                                else if n == 62 then '+' as int else '/' as int
  {
    var n := v as nat;
    AlphabetParts(n);
    if n < 26 {
      UpperCase(n);
    } else if n < 52 {
      LowerCase(n - 26);
    } else {
      DigitOrSign(n - 52);
    }
  }

  lemma AlphabetParts(n: nat)
    requires n < 64
    ensures |UPPER| == 26 && |LOWER| == 26 && |DIGITS| == 12 && |ALPHABET| == 64
    ensures ALPHABET[n] == if n < 26 then UPPER[n] else if n < 52 then LOWER[n - 26] else DIGITS[n - 52]
  {
    UpperCase(0);
    LowerCase(0);
    DigitOrSign(0);
  }

  // Examples of section 10 of RFC 4648.

  lemma TailExamples()
    ensures Tail([0x66]) == "Zg=="
    ensures Tail([0x66, 0x6f]) == "Zm8="
  {
    hide Letter;
    LetterIs(0x19);
    LetterIs(0x20);
    LetterIs(0x26);
    LetterIs(0x3c);
  }

  lemma GroupExample()
    ensures Group(0x66, 0x6f, 0x6f) == "Zm9v"
  {
    hide Letter;
    LetterIs(0x19);
    LetterIs(0x26);
    LetterIs(0x3d);
    LetterIs(0x2f);
  }

  lemma Examples()
    ensures Encoded([0x66]) == "Zg=="
    ensures Encoded([0x66, 0x6f]) == "Zm8="
    ensures Encoded([0x66, 0x6f, 0x6f]) == "Zm9v"
  {
    hide Group, Tail;
    var f, fo, foo: seq<bv8> := [0x66], [0x66, 0x6f], [0x66, 0x6f, 0x6f];
    TailExamples();
    GroupExample();
    assert f[..0] == [] && f[0..] == f;
    assert fo[..0] == [] && fo[0..] == fo;
    assert foo[..0] == [] && foo[..3] == foo && foo[3..] == [];
    NoGroups();
    NoTail();
  }

  /** How many letters lead the string. */
  function Letters(s: string): (n: nat)
    ensures n <= |s| && AllBase64(s[..n]) && (n < |s| ==> !IsBase64(s[n]))
  {
    if s == "" || !IsBase64(s[0]) then 0
    else
      var n := Letters(s[1..]);
      assert s[..n + 1] == [s[0]] + s[1..][..n];
      n + 1
  }

  /** base64_decode: everything from the first character outside the alphabet on is ignored. */
  function Decoded(s: string): seq<bv8> {
    var n := Letters(s);
    var m := n - n % 4;
    Ungroups(s[..m]) + Untail(s[m..n])
  }

  lemma LettersIs(s: string, n: nat)
    requires n <= |s| && AllBase64(s[..n]) && (n < |s| ==> !IsBase64(s[n]))
    ensures Letters(s) == n
  {
    hide IsBase64, Position, Letters;
    var k := Letters(s);
  }

  /** Decoding an encoded string gives the octets back, whatever their number. */
  lemma RoundTrip(b: seq<bv8>)
    ensures Decoded(Encoded(b)) == b
  {
    hide Groups, Ungroups, Tail, Untail, IsBase64, Letters;
    var m := |b| - |b| % 3;
    var t := b[m..];
    UngroupsGroups(b[..m]);
    var s, front := Encoded(b), Groups(b[..m]);
    assert s[..|front|] == front && s[|front|..] == Tail(t);
    if t == [] {
      assert s == front && b == b[..m];
      LettersIs(s, |s|);
      assert s[|s|..|s|] == "";
    } else {
      UntailTail(t);
      var n := |front| + |t| + 1;
      assert s[|front|..n] == Tail(t)[..|t| + 1];
      assert s[..n] == front + Tail(t)[..|t| + 1];
      assert s[n] == Tail(t)[|t| + 1];
      LettersIs(s, n);
      FourRemain(|front|, |t| + 1);
    }
  }

  lemma FourRemain(whole: nat, rest: nat)
    requires whole % 4 == 0 && rest < 4
    ensures (whole + rest) % 4 == rest
  {
  }

  /** A string of whole groups of letters is the encoding of what it decodes to. */
  lemma EncodesBack(s: string)
    requires |s| % 4 == 0 && AllBase64(s)
    ensures Encoded(Decoded(s)) == s
  {
    hide Groups, Ungroups, IsBase64, Letters;
    LettersIs(s, |s|);
    assert s[..|s|] == s && s[|s|..|s|] == "";
    var b := Ungroups(s);
    assert Decoded(s) == b && |b| % 3 == 0;
    GroupsUngroups(s);
    assert b[..|b|] == b;
  }

  /** Nothing behind the first foreign character matters. */
  lemma DecodingStops(s: string, rest: string)
    requires AllBase64(s) && rest != "" && !IsBase64(rest[0])
    ensures Decoded(s + rest) == Decoded(s)
  {
    hide IsBase64, Letters, Ungroups, Untail;
    LettersIs(s, |s|);
    LettersIs(s + rest, |s|);
    var m := |s| - |s| % 4;
    assert (s + rest)[..|s|] == s;
    assert (s + rest)[..m] == s[..m] && (s + rest)[m..|s|] == s[m..|s|];
  }

  // ---- as the gateway does it ----

  /** The four values of the octets in `three`. */
  method SplitOctets(three: array<bv8>, four: array<bv8>)
    requires three.Length == 3 && four.Length == 4 && three != four
    modifies four
    ensures four[0] == Value0(three[0]) && four[1] == Value1(three[0], three[1])
    ensures four[2] == Value2(three[1], three[2]) && four[3] == Value3(three[2])
  {
    four[0] := (three[0] & 0xfc) >> 2;
    four[1] := ((three[0] & 0x03) << 4) + ((three[1] & 0xf0) >> 4);
    four[2] := ((three[1] & 0x0f) << 2) + ((three[2] & 0xc0) >> 6);
    four[3] := three[2] & 0x3f;
  }

  /** The letters of the first `n` values behind `ret`. */
  method AppendLetters(ret: string, four: array<bv8>, n: nat) returns (longer: string)
    requires four.Length == 4 && n <= 4 && forall k :: 0 <= k < 4 ==> four[k] < 64
    ensures longer == ret + [Letter(four[0]), Letter(four[1]), Letter(four[2]), Letter(four[3])][..n]
  {
    hide Letter;
    longer := ret;
    ghost var all := [Letter(four[0]), Letter(four[1]), Letter(four[2]), Letter(four[3])];
    for i := 0 to n
      invariant longer == ret + all[..i]
    {
      longer := longer + [Letter(four[i])];
    }
  }

  lemma NextGroup(b: seq<bv8>, at: nat)
    requires 3 <= at <= |b| && at % 3 == 0
    ensures Groups(b[..at]) == Groups(b[..at - 3]) + Group(b[at - 3], b[at - 2], b[at - 1])
  {
    hide Group;
    assert b[..at][..at - 3] == b[..at - 3];
  }

  lemma EncodedInParts(b: seq<bv8>, m: nat)
    requires m <= |b| < m + 3 && m % 3 == 0
    ensures Encoded(b) == Groups(b[..m]) + Tail(b[m..])
  {
    hide Groups, Tail;
    assert |b| % 3 == |b| - m;
  }

  /** The letters of a full array of three, which holds the octets of `b` before `at`. */
  method EncodeGroup(ret: string, three: array<bv8>, four: array<bv8>, ghost b: seq<bv8>, ghost at: nat) returns (longer: string)
    requires three.Length == 3 && four.Length == 4 && three != four
    requires 3 <= at <= |b| && at % 3 == 0 && three[..] == b[at - 3..at] && ret == Groups(b[..at - 3])
    modifies four
    ensures longer == Groups(b[..at])
  {
    hide Groups, Letter, Group, Value0, Value1, Value2, Value3;
    SplitOctets(three, four);
    GroupOf(three, four);
    longer := AppendLetters(ret, four, 4);
    NextGroup(b, at);
    assert three[0] == three[..][0] && three[1] == three[..][1] && three[2] == three[..][2];
  }

  lemma Multiples(n: nat)
    ensures 3 * n % 3 == 0 && 4 * n % 4 == 0
  {
  }

  /** base64_encode, octet by octet through an array of three. */
  method Encode(b: seq<bv8>) returns (ret: string)
    ensures ret == Encoded(b)
  {
    hide Groups, Letter, Group, Tail, Encoded, Value0, Value1, Value2, Value3;
    NoGroups();
    ret := "";
    var three, four := new bv8[3], new bv8[4];
    var i, at := 0, 0;
    ghost var whole := 0;
    Multiples(0);
    while at < |b|
      invariant 0 <= i < 3 && at == 3 * whole + i <= |b| && 3 * whole % 3 == 0
      invariant three[..i] == b[3 * whole..at]
      invariant ret == Groups(b[..3 * whole])
    {
      three[i] := b[at];
      assert three[..i + 1] == b[3 * whole..at + 1];
      i, at := i + 1, at + 1;
      if i == 3 {
        whole := whole + 1;
        Multiples(whole);
        ret := EncodeGroup(ret, three, four, b, at);
        i := 0;
      }
    }
    EncodedInParts(b, 3 * whole);
    if i == 0 {
      NoTail();
      assert b[at..] == [];
    } else {
      ret := EncodeTail(ret, three, four, i);
      assert b[3 * whole..] == three[..i];
    }
  }

  lemma NoGroups()
    ensures Groups([]) == ""
  {
  }

  lemma NoTail()
    ensures Tail([]) == ""
  {
  }

  lemma GroupOf(three: array<bv8>, four: array<bv8>)
    requires three.Length == 3 && four.Length == 4
    requires four[0] == Value0(three[0]) && four[1] == Value1(three[0], three[1])
    requires four[2] == Value2(three[1], three[2]) && four[3] == Value3(three[2])
    ensures [Letter(four[0]), Letter(four[1]), Letter(four[2]), Letter(four[3])] == Group(three[0], three[1], three[2])
    ensures forall k :: 0 <= k < 4 ==> four[k] < 64
  {
    hide Letter;
  }

  /** The last one or two octets: the array filled up with zeros, and padding behind the letters. */
  method EncodeTail(ret: string, three: array<bv8>, four: array<bv8>, n: nat) returns (longer: string)
    requires three.Length == 3 && four.Length == 4 && three != four && 0 < n < 3
    modifies three, four
    ensures longer == ret + Tail(old(three[..n])) && three[..n] == old(three[..n])
  {
    hide Letter, Group, Value0, Value1, Value2, Value3;
    for j := n to 3
      invariant three[..n] == old(three[..n])
      invariant forall k :: n <= k < j ==> three[k] == 0
    {
      three[j] := 0;
    }
    SplitOctets(three, four);
    GroupOf(three, four);
    longer := AppendLetters(ret, four, n + 1);
    ghost var t := three[..n];
    ghost var letters := longer;
    assert three[0] == t[0] && (n == 2 ==> three[1] == t[1]);
    var i := n;
    while i < 3
      invariant n <= i <= 3
      invariant longer == letters + seq(i - n, _ => PAD)
    {
      longer := longer + [PAD];
      i := i + 1;
    }
    assert longer == ret + Tail(t);
  }

  /** The octets of the four letters in `letters`, each looked up in the alphabet. */
  method JoinLetters(letters: array<char>, three: array<bv8>)
    requires letters.Length == 4 && three.Length == 3
    modifies three
    ensures three[..] == Ungroup(letters[..])
  {
    hide Find;
    var four := new bv8[4];
    for i := 0 to 4
      invariant forall k :: 0 <= k < i ==> four[k] == Find(letters[k])
    {
      four[i] := Find(letters[i]);
    }
    three[0] := (four[0] << 2) + ((four[1] & 0x30) >> 4);
    three[1] := ((four[1] & 0xf) << 4) + ((four[2] & 0x3c) >> 2);
    three[2] := ((four[2] & 0x3) << 6) + four[3];
  }

  lemma NextLetters(s: string, at: nat)
    requires 4 <= at <= |s| && at % 4 == 0
    ensures Ungroups(s[..at]) == Ungroups(s[..at - 4]) + Ungroup(s[at - 4..at])
  {
    hide Ungroup;
    assert s[..at][..at - 4] == s[..at - 4] && s[..at][at - 4..] == s[at - 4..at];
  }

  lemma DecodedInParts(s: string, n: nat, m: nat)
    requires m <= n <= |s| && n < m + 4 && m % 4 == 0
    requires AllBase64(s[..n]) && (n < |s| ==> !IsBase64(s[n]))
    ensures Decoded(s) == Ungroups(s[..m]) + Untail(s[m..n])
  {
    hide Ungroups, Untail, IsBase64, Letters, AllBase64;
    LettersIs(s, n);
    FourRemain(m, n - m);
  }

  /** Filled up with zero characters, which are no letters, the last letters give one octet less than their number. */
  lemma UngroupTail(s: string, n: nat)
    requires |s| == 4 && 0 < n < 4 && forall k :: n <= k < 4 ==> s[k] == '\0'
    ensures Ungroup(s)[..n - 1] == Untail(s[..n])
  {
    hide Octet0, Octet1, Octet2, IsBase64;
    PadIsNoLetter();
  }

  /** base64_decode, letter by letter through an array of four. */
  method Decode(s: string) returns (ret: seq<bv8>)
    ensures ret == Decoded(s)
  {
    hide Ungroups, Ungroup, Untail, Decoded, Find, IsBase64, Position;
    NoLetters();
    NothingDecoded();
    ret := [];
    var letters, three := new char[4], new bv8[3];
    var i, at := 0, 0;
    ghost var whole := 0;
    Multiples(0);
    while at < |s| && s[at] != PAD && IsBase64(s[at])
      invariant 0 <= i < 4 && at == 4 * whole + i <= |s| && 4 * whole % 4 == 0
      invariant AllBase64(s[..at])
      invariant letters[..i] == s[4 * whole..at]
      invariant ret == Ungroups(s[..4 * whole])
    {
      letters[i] := s[at];
      assert letters[..i + 1] == s[4 * whole..at + 1];
      i, at := i + 1, at + 1;
      if i == 4 {
        whole := whole + 1;
        Multiples(whole);
        JoinLetters(letters, three);
        NextLetters(s, at);
        assert letters[..] == s[at - 4..at];
        ret := ret + three[..];
        i := 0;
      }
    }
    PadIsNoLetter();
    DecodedInParts(s, at, 4 * whole);
    if i > 0 {
      for j := i to 4
        invariant letters[..i] == s[4 * whole..at]
        invariant forall k :: i <= k < j ==> letters[k] == '\0'
      {
        letters[j] := '\0';
      }
      JoinLetters(letters, three);
      UngroupTail(letters[..], i);
      assert letters[..][..i] == letters[..i];
      ret := ret + three[..][..i - 1];
    }
  }

  lemma NothingDecoded()
    ensures Ungroups("") == [] && Untail("") == []
  {
  }
}
