/** Decoding Base64, by a bit accumulator and by groups of four letters, and its inverse. */
module Base64Decoding {
  import opened Utils
  import opened Base64

  // ----- Decoding by groups -----

  /** The letters up to the first character that is none. */
  function Letters(t: string): string {
    if t == "" || Sextet(t[0]) == -1 then "" else [t[0]] + Letters(t[1..])
  }

  /** The six bits of a letter; a character that is no letter does not come up. */
  function Six(c: char): (n: nat)
    ensures n < 64
  {
    if Sextet(c) == -1 then 0 else Sextet(c)
  }

  /** The three bytes in 24 bits. */
  function Triple(n: nat): (t: string) {
    [(n / 65536 % 256) as char, (n / 256 % 256) as char, (n % 256) as char]
  }

  function FourLetters(a: char, b: char, c: char, d: char): string {
    Triple(((Six(a) * 64 + Six(b)) * 64 + Six(c)) * 64 + Six(d))
  }

  /** The bytes that are complete when there are less than four letters. */
  function Rest(t: string): string
    requires |t| < 4
  {
    if |t| < 2 then ""
    else if |t| == 2 then [((Six(t[0]) * 64 + Six(t[1])) / 16) as char]
    else
      var n := (Six(t[0]) * 64 + Six(t[1])) * 64 + Six(t[2]);
      [(n / 1024) as char, (n / 4 % 256) as char]
  }

  function DecodeGroups(t: string): string {
    if |t| < 4 then Rest(t) else FourLetters(t[0], t[1], t[2], t[3]) + DecodeGroups(t[4..])
  }

  function Decode(t: string): string {
    DecodeGroups(Letters(t))
  }

  // ----- Decoding by an accumulator -----

  /** Reads six bits, and writes a byte if there are eight bits for it. */
  function DecodeLetter(a: Accumulator, x: nat, trim: int -> int): (r: Accumulator)
    requires -8 <= a.valb
    ensures -8 <= r.valb
  {
    var val, valb := trim(a.val * 64 + x), a.valb + 6;
    if valb >= 0 then Accumulator(val, valb - 8, a.out + [(Shr(val, valb) % 256) as char])
    else Accumulator(val, valb, a.out)
  }

  function DecodeRest(a: Accumulator, t: string, trim: int -> int): string
    requires -8 <= a.valb
    decreases |t|
  {
    if t == "" || Sextet(t[0]) == -1 then a.out
    else DecodeRest(DecodeLetter(a, Sextet(t[0]), trim), t[1..], trim)
  }

  /** The bytes written before a group of four letters is complete. */
  function Written(t: string): string
    requires |t| < 4
  {
    if |t| < 2 then ""
    else if |t| == 2 then [(Six(t[0]) * 4 + Six(t[1]) / 16) as char]
    else [(Six(t[0]) * 4 + Six(t[1]) / 16) as char, (Six(t[1]) % 16 * 16 + Six(t[2]) / 4) as char]
  }

  /** The accumulator has written the bytes `g` and those that the letters `t` complete, and it still holds the last
      of these letters. */
  ghost predicate Reads(a: Accumulator, g: string, t: string) {
    && |t| < 4 && a.valb == (if |t| == 0 then -8 else -2 * |t|) && a.out == g + Written(t)
    && (t != "" ==> a.val % 64 == Six(t[|t|-1]))
  }

  /** The low bits of the accumulator after six bits `x` that follow `p`. */
  lemma LowAfterLetter(val: int, p: nat, x: nat, v: int)
    requires x < 64 && p < 64 && val % 64 == p && v % 4096 == (val * 64 + x) % 4096
    ensures v % 4096 == p * 64 + x
  {
  }

  lemma LowLetter(val: int, x: nat, v: int)
    requires x < 64 && v % 4096 == (val * 64 + x) % 4096
    ensures v % 64 == x
  {
  }

  /** The eight bits `h` at place `d`, below the bits `m` and above the bits `low`. */
  lemma BitsAt(v: int, d: int, m: int, h: int, low: int)
    requires d == 4 || d == 16
    requires 0 <= h < 256 && 0 <= low < d && v == d * (256 * m + h) + low
    ensures v / d % 256 == h
  {
    Divide(v, d, 256 * m + h, low);
    Divide(256 * m + h, 256, m, h);
  }

  lemma ReadSecondLetter(v: int, p: nat, x: nat)
    requires x < 64 && p < 64 && v % 4096 == p * 64 + x
    ensures Shr(v, 4) % 256 == p * 4 + x / 16
  {
    Shifts(v);
    hide *;
    var q, y, r := v / 4096, x / 16, x % 16;
    assert v == 16 * (256 * q + (4 * p + y)) + r;
    BitsAt(v, 16, q, 4 * p + y, r);
  }

  lemma ReadThirdLetter(v: int, p: nat, x: nat)
    requires x < 64 && p < 64 && v % 4096 == p * 64 + x
    ensures Shr(v, 2) % 256 == p % 16 * 16 + x / 4
  {
    Shifts(v);
    hide *;
    var q, h, l, y, r := v / 4096, p / 16, p % 16, x / 4, x % 4;
    assert v == 4 * (256 * (4 * q + h) + (16 * l + y)) + r;
    BitsAt(v, 4, 4 * q + h, 16 * l + y, r);
  }

  lemma ReadFourthLetter(v: int, p: nat, x: nat)
    requires x < 64 && p < 64 && v % 4096 == p * 64 + x
    ensures Shr(v, 0) % 256 == p % 4 * 64 + x
  {
    Shifts(v);
    hide *;
    var q, h, l := v / 4096, p / 4, p % 4;
    assert v == 256 * (16 * q + h) + (64 * l + x);
    Divide(v, 256, 16 * q + h, 64 * l + x);
  }

  lemma TripleBits(a: nat, b: nat, c: nat, d: nat)
    requires a < 64 && b < 64 && c < 64 && d < 64
    ensures Triple(((a * 64 + b) * 64 + c) * 64 + d) ==
            [(a * 4 + b / 16) as char, (b % 16 * 16 + c / 4) as char, (c % 4 * 64 + d) as char]
  {
    var n, x, y, z := ((a * 64 + b) * 64 + c) * 64 + d, a * 4 + b / 16, b % 16 * 16 + c / 4, c % 4 * 64 + d;
    assert n == 65536 * x + 256 * y + z && x < 256 && y < 256 && z < 256;
    BytesOf(n, x, y, z);
  }

  lemma BytesOf(n: nat, x: nat, y: nat, z: nat)
    requires n == 65536 * x + 256 * y + z && x < 256 && y < 256 && z < 256
    ensures Triple(n) == [x as char, y as char, z as char]
  {
    Divide(n, 256, x * 256 + y, z);
    Divide(n, 65536, x, y * 256 + z);
    Divide(x * 256 + y, 256, x, y);
    Divide(x, 256, 0, x);
  }

  lemma RestBits(t: string)
    requires |t| < 4
    ensures Rest(t) == Written(t)
  {
    hide Six;
    if |t| == 2 {
      Divide(Six(t[0]) * 64 + Six(t[1]), 16, Six(t[0]) * 4 + Six(t[1]) / 16, Six(t[1]) % 16);
    } else if |t| == 3 {
      var a, b, c := Six(t[0]), Six(t[1]), Six(t[2]);
      var n, x, y := (a * 64 + b) * 64 + c, a * 4 + b / 16, b % 16 * 16 + c / 4;
      Divide(n, 4, x * 256 + y, c % 4);
      Divide(n, 1024, x, y * 4 + c % 4);
      Divide(x * 256 + y, 256, x, y);
    }
  }

  lemma FirstLetter(a: Accumulator, g: string, c: char, trim: int -> int)
    requires KeepsLowBits(trim) && Reads(a, g, "")
    ensures Reads(DecodeLetter(a, Six(c), trim), g, [c])
  {
    hide Shr, KeepsLowBits, Six;
    Trimmed(trim, a.val * 64 + Six(c));
    LowLetter(a.val, Six(c), trim(a.val * 64 + Six(c)));
  }

  lemma SecondLetter(a: Accumulator, g: string, t: string, c: char, trim: int -> int)
    requires KeepsLowBits(trim) && |t| == 1 && Reads(a, g, t)
    ensures Reads(DecodeLetter(a, Six(c), trim), g, t + [c])
  {
    hide Shr, KeepsLowBits, Six;
    var v := trim(a.val * 64 + Six(c));
    Trimmed(trim, a.val * 64 + Six(c));
    LowLetter(a.val, Six(c), v);
    LowAfterLetter(a.val, Six(t[0]), Six(c), v);
    ReadSecondLetter(v, Six(t[0]), Six(c));
  }

  lemma ThirdLetter(a: Accumulator, g: string, t: string, c: char, trim: int -> int)
    requires KeepsLowBits(trim) && |t| == 2 && Reads(a, g, t)
    ensures Reads(DecodeLetter(a, Six(c), trim), g, t + [c])
  {
    hide Shr, KeepsLowBits, Six;
    var v := trim(a.val * 64 + Six(c));
    Trimmed(trim, a.val * 64 + Six(c));
    LowLetter(a.val, Six(c), v);
    LowAfterLetter(a.val, Six(t[1]), Six(c), v);
    ReadThirdLetter(v, Six(t[1]), Six(c));
    assert Written(t + [c]) == Written(t) + [(Six(t[1]) % 16 * 16 + Six(c) / 4) as char];
  }

  lemma FourthLetter(a: Accumulator, g: string, t: string, c: char, trim: int -> int)
    requires KeepsLowBits(trim) && |t| == 3 && Reads(a, g, t)
    ensures Reads(DecodeLetter(a, Six(c), trim), g + FourLetters(t[0], t[1], t[2], c), "")
  {
    hide Shr, KeepsLowBits, Six, Triple;
    var v := trim(a.val * 64 + Six(c));
    Trimmed(trim, a.val * 64 + Six(c));
    LowAfterLetter(a.val, Six(t[2]), Six(c), v);
    ReadFourthLetter(v, Six(t[2]), Six(c));
    TripleBits(Six(t[0]), Six(t[1]), Six(t[2]), Six(c));
    assert Written(t) + [(Six(t[2]) % 4 * 64 + Six(c)) as char] == FourLetters(t[0], t[1], t[2], c) + Written("");
  }

  function GroupsAfter(g: string, t: string, c: char): string {
    if |t| == 3 then g + FourLetters(t[0], t[1], t[2], c) else g
  }

  function LettersAfter(t: string, c: char): string {
    if |t| == 3 then "" else t + [c]
  }

  /** Each turn of the loop keeps what the accumulator stands for. */
  lemma DecodeLetterReads(a: Accumulator, g: string, t: string, c: char, trim: int -> int)
    requires KeepsLowBits(trim) && Reads(a, g, t)
    ensures Reads(DecodeLetter(a, Six(c), trim), GroupsAfter(g, t, c), LettersAfter(t, c))
  {
    assert |t| < 4;
    hide Reads, DecodeLetter, KeepsLowBits, FourLetters;
    if |t| == 0 {
      assert t == "" && t + [c] == [c];
      FirstLetter(a, g, c, trim);
    } else if |t| == 1 {
      SecondLetter(a, g, t, c, trim);
    } else if |t| == 2 {
      ThirdLetter(a, g, t, c, trim);
    } else {
      FourthLetter(a, g, t, c, trim);
    }
  }

  lemma DecodeUnfolds(t: string, rest: string)
    requires |t| == 4
    ensures DecodeGroups(t + rest) == FourLetters(t[0], t[1], t[2], t[3]) + DecodeGroups(rest)
  {
  }

  lemma BytesAfter(g: string, t: string, c: char, rest: string)
    requires |t| < 4
    ensures GroupsAfter(g, t, c) + DecodeGroups(LettersAfter(t, c) + rest) == g + DecodeGroups(t + ([c] + rest))
  {
    hide DecodeGroups, FourLetters;
    assert t + ([c] + rest) == t + [c] + rest;
    if |t| == 3 {
      DecodeUnfolds(t + [c], rest);
      assert "" + rest == rest;
    }
  }

  /** Whatever a machine word does to the high bits, the accumulator writes the bytes of the groups. */
  lemma {:induction false} DecodeRestIsDecode(a: Accumulator, g: string, t: string, s: string, trim: int -> int)
    requires KeepsLowBits(trim) && Reads(a, g, t)
    ensures DecodeRest(a, s, trim) == g + DecodeGroups(t + Letters(s))
    decreases |s|
  {
    if s == "" || Sextet(s[0]) == -1 {
      assert t + "" == t;
      RestBits(t);
    } else {
      DecodeLetterReads(a, g, t, s[0], trim);
      BytesAfter(g, t, s[0], Letters(s[1..]));
      hide DecodeGroups, KeepsLowBits, GroupsAfter, LettersAfter, Reads, DecodeLetter;
      DecodeRestIsDecode(DecodeLetter(a, Six(s[0]), trim), GroupsAfter(g, t, s[0]), LettersAfter(t, s[0]), s[1..], trim);
    }
  }

  /** The bit accumulator decodes Base64, in 32-bit words as well as in unbounded numbers. */
  lemma AccumulatorDecodes(s: string, trim: int -> int)
    requires KeepsLowBits(trim)
    ensures DecodeRest(Accumulator(0, -8, ""), s, trim) == Decode(s)
  {
    DecodeRestIsDecode(Accumulator(0, -8, ""), "", "", s, trim);
    assert "" + Letters(s) == Letters(s);
  }

  // ----- The decoder -----

  /** The table entries of the first `n` letters are filled in. */
  ghost predicate Filled(T: array<int>, n: nat)
    reads T
  {
    T.Length == 256 && forall b {:trigger T[b]} :: 0 <= b < 256 ==>
      T[b] == if Sextet(b as char) < n then Sextet(b as char) else -1
  }

  method Table() returns (T: array<int>)
    ensures fresh(T) && Filled(T, 64)
  {
    hide Letter, Sextet, AlphabetAt;
    T := new int[256](_ => -1);
    for i := 0 to 64
      invariant Filled(T, i)
    {
      LetterSextet(i);
      ghost var before := T[..];
      T[AlphabetAt(i) as int] := i;
      forall b | 0 <= b < 256
        ensures T[b] == if Sextet(b as char) < i + 1 then Sextet(b as char) else -1
      {
        SextetLetter(b);
        assert before[b] == if Sextet(b as char) < i then Sextet(b as char) else -1;
      }
    }
  }

  /** The table is read at the unsigned value of a character. */
  method Lookup(T: array<int>, c: char) returns (x: int)
    requires Filled(T, 64)
    ensures x == Sextet(c)
  {
    SameByte(c);
    hide Sextet, Byte;
    x := T[Byte(c)];
  }

  lemma SameByte(c: char)
    ensures Sextet(Byte(c) as char) == Sextet(c)
  {
  }

  lemma DecodeNext(a: Accumulator, t: string, i: nat, trim: int -> int)
    requires -8 <= a.valb && i < |t|
    ensures DecodeRest(a, t[i..], trim) ==
            if Sextet(t[i]) == -1 then a.out else DecodeRest(DecodeLetter(a, Sextet(t[i]), trim), t[i+1..], trim)
  {
  }

  /** Shifts six bits in, and eight bits out if there are as many. */
  method ReadLetter(val: int, valb: int, written: string, x: nat) returns (v: int, b: int, out: string)
    requires -8 <= valb
    ensures Accumulator(v, b, out) == DecodeLetter(Accumulator(val, valb, written), x, ToInt32)
  {
    hide Shr, ToInt32;
    v, b, out := ToInt32(val * 64 + x), valb + 6, written;
    if b >= 0 {
      out := out + [(Shr(v, b) % 256) as char];
      b := b - 8;
    }
  }

  method Base64Decode(t: string) returns (out: string)
    ensures out == Decode(t)
  {
    MachineWords();
    AccumulatorDecodes(t, ToInt32);
    hide DecodeLetter, Sextet, Decode, DecodeRest, ToInt32, KeepsLowBits, Filled;
    var T := Table();
    var val, valb := 0, -8;
    out := "";
    assert t[0..] == t;
    for i := 0 to |t|
      invariant -8 <= valb && Filled(T, 64)
      invariant DecodeRest(Accumulator(val, valb, out), t[i..], ToInt32) == Decode(t)
    {
      DecodeNext(Accumulator(val, valb, out), t, i, ToInt32);
      var x := Lookup(T, t[i]);
      if x == -1 { return; }
      val, valb, out := ReadLetter(val, valb, out, x);
    }
    assert t[|t|..] == "";
    DecodeEnd(Accumulator(val, valb, out), ToInt32);
  }

  lemma DecodeEnd(a: Accumulator, trim: int -> int)
    requires -8 <= a.valb
    ensures DecodeRest(a, "", trim) == a.out
  {
  }

  // ----- Decoding undoes encoding -----

  lemma {:induction false} LettersFirst(q: string, rest: string)
    requires forall i :: 0 <= i < |q| ==> Sextet(q[i]) != -1
    ensures Letters(q + rest) == q + Letters(rest)
  {
    hide Sextet;
    if q == "" {
      assert q + rest == rest;
    } else {
      assert (q + rest)[1..] == q[1..] + rest;
      LettersFirst(q[1..], rest);
    }
  }

  lemma PaddingIsNoLetter(pad: string)
    requires pad != "" && pad[0] == '='
    ensures Letters(pad) == ""
  {
  }

  lemma SameBytes(x: nat, y: nat, z: nat)
    requires x < 256 && y < 256 && z < 256
    ensures Triple(((x / 4 * 64 + (x % 4 * 16 + y / 16)) * 64 + (y % 16 * 4 + z / 64)) * 64 + z % 64) ==
            [x as char, y as char, z as char]
  {
    TripleBits(x / 4, x % 4 * 16 + y / 16, y % 16 * 4 + z / 64, z % 64);
    Divide(x % 4 * 16 + y / 16, 16, x % 4, y / 16);
    Divide(y % 16 * 4 + z / 64, 4, y % 16, z / 64);
  }

  lemma LettersRead(q: string, a: nat, b: nat, c: nat, d: nat)
    requires a < 64 && b < 64 && c < 64 && d < 64 && q == [Letter(a), Letter(b), Letter(c), Letter(d)]
    ensures forall i :: 0 <= i < 4 ==> Sextet(q[i]) != -1
    ensures FourLetters(q[0], q[1], q[2], q[3]) == Triple(((a * 64 + b) * 64 + c) * 64 + d)
  {
    LetterSextet(a);
    LetterSextet(b);
    LetterSextet(c);
    LetterSextet(d);
    hide Letter, Sextet, Triple;
  }

  lemma ByteOf(c: char)
    requires c as int < 256
    ensures Byte(c) as char == c
  {
  }

  lemma GroupLetters(a: char, b: char, c: char)
    ensures var x, y, z := Byte(a), Byte(b), Byte(c);
            Group(a, b, c) == [Letter(x / 4), Letter(x % 4 * 16 + y / 16), Letter(y % 16 * 4 + z / 64), Letter(z % 64)]
  {
    hide Letter, Quad, Byte;
    QuadBits(Byte(a), Byte(b), Byte(c));
  }

  lemma GroupDecodes(a: char, b: char, c: char)
    requires a as int < 256 && b as int < 256 && c as int < 256
    ensures var q := Group(a, b, c);
            (forall i :: 0 <= i < 4 ==> Sextet(q[i]) != -1) && FourLetters(q[0], q[1], q[2], q[3]) == [a, b, c]
  {
    hide *;
    var x, y, z := Byte(a), Byte(b), Byte(c);
    GroupLetters(a, b, c);
    LettersRead(Group(a, b, c), x / 4, x % 4 * 16 + y / 16, y % 16 * 4 + z / 64, z % 64);
    SameBytes(x, y, z);
    ByteOf(a);
    ByteOf(b);
    ByteOf(c);
  }

  lemma LettersThenPadding(q: string, pad: string)
    requires forall i :: 0 <= i < |q| ==> Sextet(q[i]) != -1
    requires pad != "" && pad[0] == '='
    ensures Letters(q + pad) == q
  {
    LettersFirst(q, pad);
    PaddingIsNoLetter(pad);
    assert q + "" == q;
  }

  lemma TwoLettersRead(a: nat, b: nat)
    requires a < 64 && b < 64
    ensures Decode([Letter(a), Letter(b)] + "==") == [(a * 4 + b / 16) as char]
  {
    LetterSextet(a);
    LetterSextet(b);
    hide Letter, Sextet;
    var q := [Letter(a), Letter(b)];
    LettersThenPadding(q, "==");
    RestBits(q);
  }

  lemma ThreeLettersRead(a: nat, b: nat, c: nat)
    requires a < 64 && b < 64 && c < 64
    ensures Decode([Letter(a), Letter(b), Letter(c)] + "=") == [(a * 4 + b / 16) as char, (b % 16 * 16 + c / 4) as char]
  {
    LetterSextet(a);
    LetterSextet(b);
    LetterSextet(c);
    hide Letter, Sextet;
    var q := [Letter(a), Letter(b), Letter(c)];
    LettersThenPadding(q, "=");
    RestBits(q);
  }

  lemma OneByteDecodes(s: string)
    requires |s| == 1 && IsBytes(s)
    ensures Decode(Tail(s)) == s
  {
    var x := s[0] as int;
    assert Byte(s[0]) == x && s == [x as char];
    TailBits(s);
    assert Partial(s) + [Letter(x % 4 * 16)] == [Letter(x / 4), Letter(x % 4 * 16)];
    hide Letter, Tail, Decode, Byte;
    TwoLettersRead(x / 4, x % 4 * 16);
    Divide(x % 4 * 16, 16, x % 4, 0);
  }

  lemma TwoBytesBack(x: nat, y: nat)
    requires x < 256 && y < 256
    ensures var b := x % 4 * 16 + y / 16; x / 4 * 4 + b / 16 == x && b % 16 * 16 + y % 16 * 4 / 4 == y
  {
  }

  lemma TwoByteLetters(s: string)
    requires |s| == 2
    ensures var x, y := Byte(s[0]), Byte(s[1]);
            Tail(s) == [Letter(x / 4), Letter(x % 4 * 16 + y / 16), Letter(y % 16 * 4)] + "="
  {
    TailBits(s);
    hide Letter, Byte, Tail;
  }

  lemma BytesOfString(s: string)
    requires |s| == 2 && IsBytes(s)
    ensures Byte(s[0]) == s[0] as int && Byte(s[1]) == s[1] as int && s == [s[0], s[1]]
  {
  }

  lemma TwoBytesDecode(s: string)
    requires |s| == 2 && IsBytes(s)
    ensures Decode(Tail(s)) == s
  {
    BytesOfString(s);
    TwoByteLetters(s);
    hide Letter, Tail, Decode, Byte;
    var x, y := s[0] as int, s[1] as int;
    ThreeLettersRead(x / 4, x % 4 * 16 + y / 16, y % 16 * 4);
    TwoBytesBack(x, y);
  }

  /** Decoding undoes encoding, for every string of bytes. */
  lemma {:induction false} DecodeEncode(s: string)
    requires IsBytes(s)
    ensures Decode(Encode(s)) == s
    decreases |s|
  {
    if |s| < 3 {
      if |s| == 1 { OneByteDecodes(s); }
      if |s| == 2 { TwoBytesDecode(s); }
    } else {
      var q := Group(s[0], s[1], s[2]);
      GroupDecodes(s[0], s[1], s[2]);
      DecodeEncode(s[3..]);
      hide Sextet, Group, FourLetters, Byte;
      LettersFirst(q, Encode(s[3..]));
      DecodeUnfolds(q, Letters(Encode(s[3..])));
      assert s == [s[0], s[1], s[2]] + s[3..];
    }
  }

  /** Different byte strings have different encodings. */
  lemma EncodeIsInjective(s: string, t: string)
    requires IsBytes(s) && IsBytes(t) && Encode(s) == Encode(t)
    ensures s == t
  {
    DecodeEncode(s);
    DecodeEncode(t);
  }

  /** Four letters for every three bytes, the last group filled up. */
  lemma {:induction false} EncodedLength(s: string)
    ensures |Encode(s)| == (|s| + 2) / 3 * 4
    decreases |s|
  {
    hide Group, Letter, Byte;
    if 3 <= |s| { EncodedLength(s[3..]); }
  }

  // ----- Letter by letter -----

  /** Decoding stops at the first character that is no letter, digit, plus or slash. */
  lemma {:induction false} NonLetterEnds(t: string, c: char, rest: string)
    requires c as int < 256 && !('A' <= c <= 'Z' || 'a' <= c <= 'z' || '0' <= c <= '9' || c == '+' || c == '/')
    ensures Letters(t + [c] + rest) == Letters(t) && Decode(t + [c] + rest) == Decode(t)
  {
    if t == "" {
      assert t + [c] + rest == [c] + rest;
    } else {
      assert (t + [c] + rest)[1..] == t[1..] + [c] + rest;
      NonLetterEnds(t[1..], c, rest);
    }
  }

  lemma GroupIs(a: char, b: char, c: char, p: nat, q: nat, r: nat, s: nat)
    requires p < 64 && q < 64 && r < 64 && s < 64
    requires (Byte(a) * 256 + Byte(b)) * 256 + Byte(c) == ((p * 64 + q) * 64 + r) * 64 + s
    ensures Group(a, b, c) == [Letter(p), Letter(q), Letter(r), Letter(s)]
  {
    hide Byte, Letter;
    var n := ((p * 64 + q) * 64 + r) * 64 + s;
    Divide(n, 64, (p * 64 + q) * 64 + r, s);
    Divide(n, 4096, p * 64 + q, r * 64 + s);
    Divide(n, 262144, p, (q * 64 + r) * 64 + s);
    Divide((p * 64 + q) * 64 + r, 64, p * 64 + q, r);
    Divide(p * 64 + q, 64, p, q);
  }

  lemma GroupVectors()
    ensures Group('f', 'o', 'o') == "Zm9v" && Group('b', 'a', 'r') == "YmFy"
    ensures Group(251 as char, 255 as char, 191 as char) == "+/+/"
  {
    assert Letter(25) == 'Z' && Letter(38) == 'm' && Letter(61) == '9' && Letter(47) == 'v' && Letter(24) == 'Y';
    assert Letter(5) == 'F' && Letter(50) == 'y' && Letter(62) == '+' && Letter(63) == '/';
    hide Group, Letter;
    GroupIs('f', 'o', 'o', 25, 38, 61, 47);
    GroupIs('b', 'a', 'r', 24, 38, 5, 50);
    GroupIs(251 as char, 255 as char, 191 as char, 62, 63, 62, 63);
  }

  lemma TailVectors()
    ensures Tail("") == "" && Tail("f") == "Zg==" && Tail("fo") == "Zm8=" && Tail("b") == "Yg==" && Tail("ba") == "YmE="
  {
    assert Byte('f') == 102 && Byte('o') == 111 && Byte('b') == 98 && Byte('a') == 97;
  }

  lemma EncodeGroup(a: char, b: char, c: char, rest: string)
    ensures Encode([a, b, c] + rest) == Group(a, b, c) + Encode(rest)
  {
    hide Group;
  }

  lemma EncodeTail(s: string)
    requires |s| < 3
    ensures Encode(s) == Tail(s)
  {
  }

  /** The test vectors of RFC 4648 section 10, and the two letters that are no letters or digits. */
  lemma TestVectors()
    ensures Encode("") == "" && Encode("f") == "Zg==" && Encode("fo") == "Zm8=" && Encode("foo") == "Zm9v"
    ensures Encode("foob") == "Zm9vYg==" && Encode("fooba") == "Zm9vYmE=" && Encode("foobar") == "Zm9vYmFy"
    ensures Encode([251 as char, 255 as char, 191 as char]) == "+/+/"
  {
    GroupVectors();
    TailVectors();
    hide *;
    EncodeTail("");
    EncodeTail("f");
    EncodeTail("fo");
    EncodeTail("b");
    EncodeTail("ba");
    EncodeGroup('f', 'o', 'o', "");
    EncodeGroup('f', 'o', 'o', "b");
    EncodeGroup('f', 'o', 'o', "ba");
    EncodeGroup('b', 'a', 'r', "");
    EncodeGroup('f', 'o', 'o', "bar");
    EncodeGroup(251 as char, 255 as char, 191 as char, "");
    assert "foo" + "" == "foo" && "foo" + "b" == "foob" && "foo" + "ba" == "fooba" && "bar" + "" == "bar";
    assert "foo" + "bar" == "foobar";
    var bytes := [251 as char, 255 as char, 191 as char];
    assert bytes + "" == bytes && "+/+/" + "" == "+/+/";
  }
}
