/** Base64, by a bit accumulator and by the 24-bit groups of RFC 4648 section 4. */
module Base64 {
  import opened Utils

  const UPPER := "ABCDEFGHIJKLMNOPQRSTUVWXYZ"
  const LOWER := "abcdefghijklmnopqrstuvwxyz"
  const DIGITS := "0123456789"
  const ALPHABET := UPPER + LOWER + DIGITS + "+/"

  // ----- Bits -----

  /** A character as an unsigned byte. */
  function Byte(c: char): (b: nat)
    ensures b < 256
  {
    c as int % 256
  }

  /** Every character is a byte. */
  predicate IsBytes(s: string) {
    forall i :: 0 <= i < |s| ==> s[i] as int < 256
  }

  /** The arithmetic shift to the right. */
  function Shr(v: int, k: nat): int
    decreases k
  {
    if k == 0 then v else Shr(v / 2, k - 1)
  }

  /** The letter for six bits. */
  function Letter(n: int): char
    requires 0 <= n < 64
  {
    if n < 26 then ('A' as int + n) as char
    else if n < 52 then ('a' as int + n - 26) as char
    else if n < 62 then ('0' as int + n - 52) as char
    else if n == 62 then '+'
    else '/'
  }

  /** The six bits of a letter, -1 for any other character. */
  function Sextet(c: char): (v: int)
    ensures -1 <= v < 64
  {
    var b := Byte(c) as char;
    if 'A' <= b <= 'Z' then b as int - 'A' as int
    else if 'a' <= b <= 'z' then b as int - 'a' as int + 26
    else if '0' <= b <= '9' then b as int - '0' as int + 52
    else if b == '+' then 62
    else if b == '/' then 63
    else -1
  }

  lemma LetterSextet(n: int)
    requires 0 <= n < 64
    ensures Letter(n) as int < 256 && Sextet(Letter(n)) == n
  {
  }

  lemma SextetLetter(b: int)
    requires 0 <= b < 256
    ensures Sextet(b as char) != -1 ==> Letter(Sextet(b as char)) as int == b
  {
  }

  lemma AlphabetLetter(n: int)
    requires 0 <= n < 64
    ensures |ALPHABET| == 64 && ALPHABET[n] == Letter(n)
  {
    assert forall i :: 0 <= i < 26 ==> UPPER[i] == Letter(i);
    assert forall i :: 0 <= i < 26 ==> LOWER[i] == Letter(26 + i);
    assert forall i :: 0 <= i < 10 ==> DIGITS[i] == Letter(52 + i);
  }

  function AlphabetAt(n: int): (c: char)
    requires 0 <= n < 64
    ensures c == Letter(n)
  {
    AlphabetLetter(n);
    ALPHABET[n]
  }

  /** What a machine word does to a number: the low 12 bits are kept, whatever happens to the others. */
  ghost predicate KeepsLowBits(trim: int -> int) {
    forall v :: trim(v) % 4096 == v % 4096
  }

  lemma Trimmed(trim: int -> int, v: int)
    requires KeepsLowBits(trim)
    ensures trim(v) % 4096 == v % 4096
  {
  }

  lemma MachineWords()
    ensures KeepsLowBits(v => v) && KeepsLowBits(ToInt32)
  {
  }

  lemma Shifts(v: int)
    ensures Shr(v, 0) == v && Shr(v, 2) == v / 4 && Shr(v, 4) == v / 16 && Shr(v, 6) == v / 64
  {
  }

  // ----- Encoding by groups -----

  /** The four letters for 24 bits. */
  function Quad(n: nat): (q: string)
    ensures |q| == 4
  {
    [Letter(n / 262144 % 64), Letter(n / 4096 % 64), Letter(n / 64 % 64), Letter(n % 64)]
  }

  /** The four letters for three bytes. */
  function Group(a: char, b: char, c: char): (q: string)
    ensures |q| == 4
  {
    Quad((Byte(a) * 256 + Byte(b)) * 256 + Byte(c))
  }

  /** One or two bytes are filled up with zero bits, and their letters with padding. */
  function Tail(s: string): string
    requires |s| < 3
  {
    if |s| == 0 then ""
    else if |s| == 1 then
      var n := Byte(s[0]) * 16;
      [Letter(n / 64), Letter(n % 64)] + "=="
    else
      var n := (Byte(s[0]) * 256 + Byte(s[1])) * 4;
      [Letter(n / 4096), Letter(n / 64 % 64), Letter(n % 64)] + "="
  }

  function Encode(s: string): string {
    if |s| < 3 then Tail(s)
    else Group(s[0], s[1], s[2]) + Encode(s[3..])
  }

  // ----- Encoding by an accumulator -----

  /** The state of the loops: the bits gathered, how many of them wait (less 6 or 8), and the text so far. */
  datatype Accumulator = Accumulator(val: int, valb: int, out: string)

  /** Writes letters while there are six bits for one. */
  function Emit(a: Accumulator): (r: Accumulator)
    requires -6 <= a.valb
    ensures -6 <= r.valb < 0
    decreases a.valb
  {
    if a.valb < 0 then a
    else Emit(Accumulator(a.val, a.valb - 6, a.out + [Letter(Shr(a.val, a.valb) % 64)]))
  }

  function EncodeByte(a: Accumulator, c: char, trim: int -> int): Accumulator
    requires -6 <= a.valb
  {
    Emit(Accumulator(trim(a.val * 256 + Byte(c)), a.valb + 8, a.out))
  }

  function Missing(n: nat): (k: nat)
    ensures (n + k) % 4 == 0 && k < 4
  {
    if n % 4 == 0 then 0 else 4 - n % 4
  }

  function Pad(out: string): string
    decreases Missing(|out|)
  {
    if |out| % 4 == 0 then out else Pad(out + "=")
  }

  function Finish(a: Accumulator, trim: int -> int): string
    requires -6 <= a.valb
  {
    Pad(if a.valb > -6 then a.out + [Letter(Shr(trim(a.val * 256), a.valb + 8) % 64)] else a.out)
  }

  function EncodeRest(a: Accumulator, s: string, trim: int -> int): string
    requires -6 <= a.valb
    decreases |s|
  {
    if s == "" then Finish(a, trim) else EncodeRest(EncodeByte(a, s[0], trim), s[1..], trim)
  }

  /** The letters written before a group is complete. */
  function Partial(s: string): string
    requires |s| < 3
  {
    if |s| == 0 then ""
    else if |s| == 1 then [Letter(Byte(s[0]) / 4)]
    else [Letter(Byte(s[0]) / 4), Letter(Byte(s[0]) % 4 * 16 + Byte(s[1]) / 16)]
  }

  /** The accumulator has written the whole groups `g` and the letters of the bytes `t` that are complete, and it
      still holds the last of these bytes. */
  ghost predicate Holds(a: Accumulator, g: string, t: string) {
    && |g| % 4 == 0 && |t| < 3 && a.valb == 2 * |t| - 6 && a.out == g + Partial(t)
    && (t != "" ==> a.val % 256 == Byte(t[|t|-1]))
  }

  lemma Divide(v: int, d: int, q: int, r: int)
    requires d == 4 || d == 16 || d == 64 || d == 256 || d == 1024 || d == 4096 || d == 65536 || d == 262144
    requires v == d * q + r && 0 <= r < d
    ensures v / d == q && v % d == r
  {
  }

  /** Six bits at place `d` are among the low bits that lie below `64 * d`. */
  lemma SixBits(v: int, d: int, m: int, low: nat)
    requires d == 1 || d == 4 || d == 16 || d == 64
    requires v == d * (64 * m) + low
    ensures v / d % 64 == low / d % 64
  {
    var k, l := low / d, low % d;
    assert low == d * k + l;
    if d == 1 {
      Divide(v, 64, m + k / 64, k % 64);
    } else {
      Divide(v, d, 64 * m + k, l);
      Divide(64 * m + k, 64, m + k / 64, k % 64);
    }
  }

  lemma ReadFirst(v: int, c: nat)
    requires c < 256 && v % 256 == c
    ensures Shr(v, 2) % 64 == c / 4
  {
    Shifts(v);
    hide Shr;
    SixBits(v, 4, v / 256, c);
    Divide(c / 4, 64, 0, c / 4);
  }

  lemma LowTwo(p: nat)
    ensures p % 16 == 4 * (p % 16 / 4) + p % 4
  {
  }

  lemma ReadSecond(v: int, p: nat, c: nat)
    requires c < 256 && p < 256 && v % 4096 == p % 16 * 256 + c
    ensures Shr(v, 4) % 64 == p % 4 * 16 + c / 16
  {
    Shifts(v);
    LowTwo(p);
    hide Shr;
    var q, x, y := v / 4096, p % 16 / 4, p % 4;
    assert v == 16 * (64 * (4 * q + x)) + (256 * y + c);
    SixBits(v, 16, 4 * q + x, 256 * y + c);
    Divide(256 * y + c, 16, 16 * y + c / 16, c % 16);
    Divide(16 * y + c / 16, 64, 0, 16 * y + c / 16);
  }

  lemma ReadThird(v: int, p: nat, c: nat)
    requires c < 256 && p < 256 && v % 4096 == p % 16 * 256 + c
    ensures Shr(v, 6) % 64 == p % 16 * 4 + c / 64 && Shr(v, 0) % 64 == c % 64
  {
    Shifts(v);
    hide Shr;
    var q, x := v / 4096, p % 16;
    assert v == 4096 * q + (256 * x + c);
    SixBits(v, 64, q, 256 * x + c);
    Divide(256 * x + c, 64, 4 * x + c / 64, c % 64);
    SixBits(v, 1, 64 * q + 4 * x, c);
  }

  /** The low bits of the accumulator after a byte `c` that follows `p`. */
  lemma LowAfter(val: int, p: nat, c: nat, v: int)
    requires c < 256 && p < 256 && val % 256 == p && v % 4096 == (val * 256 + c) % 4096
    ensures v % 4096 == p % 16 * 256 + c
  {
    var q := val / 256;
    assert val == 256 * q + p && p == p / 16 * 16 + p % 16;
    Divide(val * 256 + c, 4096, 16 * q + p / 16, p % 16 * 256 + c);
  }

  lemma LowByte(val: int, c: nat, v: int)
    requires c < 256 && v % 4096 == (val * 256 + c) % 4096
    ensures v % 256 == c
  {
  }

  lemma QuadBits(a: nat, b: nat, c: nat)
    requires a < 256 && b < 256 && c < 256
    ensures Quad((a * 256 + b) * 256 + c) ==
            [Letter(a / 4), Letter(a % 4 * 16 + b / 16), Letter(b % 16 * 4 + c / 64), Letter(c % 64)]
  {
    hide Letter;
    var n, x, y := (a * 256 + b) * 256 + c, a % 4 * 16 + b / 16, b % 16 * 4 + c / 64;
    Divide(n, 64, 64 * (64 * (a / 4) + x) + y, c % 64);
    Divide(n, 4096, 64 * (a / 4) + x, 64 * y + c % 64);
    Divide(n, 262144, a / 4, 4096 * x + 64 * y + c % 64);
    Divide(64 * (64 * (a / 4) + x) + y, 64, 64 * (a / 4) + x, y);
    Divide(64 * (a / 4) + x, 64, a / 4, x);
    assert n / 262144 % 64 == a / 4;
  }

  lemma TailBits(s: string)
    requires |s| < 3
    ensures |s| == 1 ==> Tail(s) == Partial(s) + [Letter(Byte(s[0]) % 4 * 16)] + "=="
    ensures |s| == 2 ==> Tail(s) == Partial(s) + [Letter(Byte(s[1]) % 16 * 4)] + "="
  {
    hide Letter, Byte;
    if |s| == 1 {
      var a := Byte(s[0]);
      Divide(a * 16, 64, a / 4, a % 4 * 16);
    } else if |s| == 2 {
      var a, b := Byte(s[0]), Byte(s[1]);
      var n, x, y := (a * 256 + b) * 4, a % 4 * 16 + b / 16, b % 16 * 4;
      Divide(n, 64, 64 * (a / 4) + x, y);
      Divide(n, 4096, a / 4, 64 * x + y);
      Divide(64 * (a / 4) + x, 64, a / 4, x);
    }
  }

  lemma EmitUnfolds(val: int, valb: int, out: string)
    requires 0 <= valb <= 6
    ensures Emit(Accumulator(val, valb, out)) ==
            if valb < 6 then Accumulator(val, valb - 6, out + [Letter(Shr(val, valb) % 64)])
            else Accumulator(val, -6, out + [Letter(Shr(val, 6) % 64), Letter(Shr(val, 0) % 64)])
  {
    hide Shr, Letter;
    if valb == 6 {
      var once := out + [Letter(Shr(val, 6) % 64)];
      assert once + [Letter(Shr(val, 0) % 64)] == out + [Letter(Shr(val, 6) % 64), Letter(Shr(val, 0) % 64)];
      assert Emit(Accumulator(val, 6, out)) == Emit(Accumulator(val, 0, once));
    }
  }

  lemma FirstByte(a: Accumulator, g: string, c: char, trim: int -> int)
    requires KeepsLowBits(trim) && Holds(a, g, "")
    ensures Holds(EncodeByte(a, c, trim), g, [c])
  {
    hide Shr, Letter, Byte, Emit, KeepsLowBits;
    var v := trim(a.val * 256 + Byte(c));
    Trimmed(trim, a.val * 256 + Byte(c));
    LowByte(a.val, Byte(c), v);
    EmitUnfolds(v, 2, a.out);
    ReadFirst(v, Byte(c));
    assert a.out == g;
  }

  lemma SecondByte(a: Accumulator, g: string, b: char, c: char, trim: int -> int)
    requires KeepsLowBits(trim) && Holds(a, g, [b])
    ensures Holds(EncodeByte(a, c, trim), g, [b, c])
  {
    hide Shr, Letter, Byte, Emit, KeepsLowBits;
    var v := trim(a.val * 256 + Byte(c));
    Trimmed(trim, a.val * 256 + Byte(c));
    LowByte(a.val, Byte(c), v);
    EmitUnfolds(v, 4, a.out);
    LowAfter(a.val, Byte(b), Byte(c), v);
    ReadSecond(v, Byte(b), Byte(c));
    assert Partial([b]) + [Letter(Byte(b) % 4 * 16 + Byte(c) / 16)] == Partial([b, c]);
  }

  lemma GroupBits(b: string, c: char)
    requires |b| == 2
    ensures Group(b[0], b[1], c) ==
            Partial(b) + [Letter(Byte(b[1]) % 16 * 4 + Byte(c) / 64), Letter(Byte(c) % 64)]
  {
    QuadBits(Byte(b[0]), Byte(b[1]), Byte(c));
  }

  lemma ThirdByte(a: Accumulator, g: string, b: string, c: char, trim: int -> int)
    requires KeepsLowBits(trim) && |b| == 2 && Holds(a, g, b)
    ensures Holds(EncodeByte(a, c, trim), g + Group(b[0], b[1], c), "")
  {
    hide Shr, Letter, Byte, Emit, Group, KeepsLowBits, Partial;
    var v, p := trim(a.val * 256 + Byte(c)), Byte(b[1]);
    Trimmed(trim, a.val * 256 + Byte(c));
    EmitUnfolds(v, 6, a.out);
    LowAfter(a.val, p, Byte(c), v);
    ReadThird(v, p, Byte(c));
    GroupWritten(g, b, c);
  }

  lemma GroupWritten(g: string, b: string, c: char)
    requires |b| == 2 && |g| % 4 == 0
    ensures var last := [Letter(Byte(b[1]) % 16 * 4 + Byte(c) / 64), Letter(Byte(c) % 64)];
            g + Partial(b) + last == g + Group(b[0], b[1], c) + Partial("")
    ensures |g + Group(b[0], b[1], c)| % 4 == 0
  {
    assert Partial("") == "";
    hide *;
    GroupBits(b, c);
    var q := Group(b[0], b[1], c);
    assert q[..2] == Partial(b) && q[2..] == [q[2], q[3]];
    assert g + Partial(b) + q[2..] == g + (Partial(b) + q[2..]) == g + q == g + q + "";
  }

  lemma EncodeUnfolds(s: string, t: string)
    requires |s| == 3
    ensures Encode(s + t) == Group(s[0], s[1], s[2]) + Encode(t)
  {
  }

  lemma {:induction false} PadFills(out: string)
    ensures |out| % 4 == 0 ==> Pad(out) == out
    ensures |out| % 4 == 3 ==> Pad(out) == out + "="
    ensures |out| % 4 == 2 ==> Pad(out) == out + "=="
  {
    if |out| % 4 == 2 {
      assert out + "=" + "=" == out + "==";
      assert Pad(out) == Pad(out + "=") == Pad(out + "=" + "=");
    }
  }

  /** The last letter, from the bits that are left. */
  lemma LastLetter(a: Accumulator, g: string, t: string, trim: int -> int)
    requires KeepsLowBits(trim) && Holds(a, g, t) && t != ""
    ensures Shr(trim(a.val * 256), a.valb + 8) % 64 ==
            if |t| == 1 then Byte(t[0]) % 4 * 16 else Byte(t[1]) % 16 * 4
  {
    hide Shr, Byte, KeepsLowBits, Partial;
    var v, p := trim(a.val * 256), Byte(t[|t|-1]);
    Trimmed(trim, a.val * 256 + 0);
    LowAfter(a.val, p, 0, v);
    if |t| == 1 { ReadSecond(v, p, 0); } else { ReadThird(v, p, 0); }
  }

  lemma FinishTwo(a: Accumulator, g: string, x: char, y: char, trim: int -> int)
    requires a.valb == -4 && |g| % 4 == 0 && a.out == g + [x] && Letter(Shr(trim(a.val * 256), a.valb + 8) % 64) == y
    ensures Finish(a, trim) == g + ([x, y] + "==")
  {
    hide Shr, Letter, Pad;
    assert a.out + [y] == g + [x, y] && g + [x, y] + "==" == g + ([x, y] + "==");
    PadFills(g + [x, y]);
  }

  lemma FinishThree(a: Accumulator, g: string, x: string, y: char, trim: int -> int)
    requires a.valb == -2 && |g| % 4 == 0 && |x| == 2 && a.out == g + x
    requires Letter(Shr(trim(a.val * 256), a.valb + 8) % 64) == y
    ensures Finish(a, trim) == g + (x + [y] + "=")
  {
    hide Shr, Letter, Pad;
    assert a.out + [y] == g + (x + [y]) && g + (x + [y]) + "=" == g + (x + [y] + "=");
    PadFills(g + (x + [y]));
  }

  lemma FinishIsTail(a: Accumulator, g: string, t: string, trim: int -> int)
    requires KeepsLowBits(trim) && Holds(a, g, t)
    ensures Finish(a, trim) == g + Tail(t)
  {
    TailBits(t);
    if t == "" {
      PadFills(a.out);
    } else {
      LastLetter(a, g, t, trim);
      hide Shr, Letter, Byte, Tail, Pad, Finish;
      if |t| == 1 {
        FinishTwo(a, g, Letter(Byte(t[0]) / 4), Letter(Byte(t[0]) % 4 * 16), trim);
        assert Partial(t) + [Letter(Byte(t[0]) % 4 * 16)] == [Letter(Byte(t[0]) / 4), Letter(Byte(t[0]) % 4 * 16)];
      } else {
        FinishThree(a, g, Partial(t), Letter(Byte(t[1]) % 16 * 4), trim);
      }
    }
  }

  /** The whole groups, and the bytes after them, when one more byte has been read. */
  function GroupsAfter(g: string, t: string, c: char): string {
    if |t| == 2 then g + Group(t[0], t[1], c) else g
  }

  function BytesAfter(t: string, c: char): string {
    if |t| == 2 then "" else t + [c]
  }

  /** Each turn of the loop keeps what the accumulator stands for. */
  lemma EncodeByteHolds(a: Accumulator, g: string, t: string, c: char, trim: int -> int)
    requires KeepsLowBits(trim) && Holds(a, g, t)
    ensures Holds(EncodeByte(a, c, trim), GroupsAfter(g, t, c), BytesAfter(t, c))
  {
    assert |t| < 3;
    hide Holds, EncodeByte, KeepsLowBits, Group;
    if |t| == 0 {
      assert t == "" && t + [c] == [c];
      FirstByte(a, g, c, trim);
    } else if |t| == 1 {
      assert t == [t[0]] && t + [c] == [t[0], c];
      SecondByte(a, g, t[0], c, trim);
    } else {
      ThirdByte(a, g, t, c, trim);
    }
  }

  lemma TextAfter(g: string, t: string, c: char, rest: string)
    requires |t| < 3
    ensures GroupsAfter(g, t, c) + Encode(BytesAfter(t, c) + rest) == g + Encode(t + ([c] + rest))
  {
    hide Encode, Group;
    assert t + ([c] + rest) == t + [c] + rest;
    if |t| == 2 {
      EncodeUnfolds(t + [c], rest);
      assert "" + rest == rest;
    }
  }

  /** Whatever a machine word does to the high bits, the accumulator writes the letters of the groups. */
  lemma {:induction false} EncodeRestIsEncode(a: Accumulator, g: string, t: string, s: string, trim: int -> int)
    requires KeepsLowBits(trim) && Holds(a, g, t)
    ensures EncodeRest(a, s, trim) == g + Encode(t + s)
    decreases |s|
  {
    if s == "" {
      assert t + s == t;
      FinishIsTail(a, g, t, trim);
    } else {
      assert s == [s[0]] + s[1..];
      EncodeByteHolds(a, g, t, s[0], trim);
      TextAfter(g, t, s[0], s[1..]);
      hide Emit, Encode, KeepsLowBits, GroupsAfter, BytesAfter;
      EncodeRestIsEncode(EncodeByte(a, s[0], trim), GroupsAfter(g, t, s[0]), BytesAfter(t, s[0]), s[1..], trim);
    }
  }

  /** The bit accumulator computes Base64, in 32-bit words as well as in unbounded numbers. */
  lemma AccumulatorEncodes(a: Accumulator, s: string, trim: int -> int)
    requires KeepsLowBits(trim) && a.valb == -6 && a.out == ""
    ensures EncodeRest(a, s, trim) == Encode(s)
  {
    EncodeRestIsEncode(a, "", "", s, trim);
    assert "" + s == s;
  }

  lemma EncodeLast(a: Accumulator, trim: int -> int)
    requires -6 <= a.valb
    ensures EncodeRest(a, "", trim) == Finish(a, trim)
  {
  }

  lemma EncodeNext(a: Accumulator, s: string, i: nat, trim: int -> int)
    requires -6 <= a.valb && i < |s|
    ensures EncodeRest(a, s[i..], trim) == EncodeRest(EncodeByte(a, s[i], trim), s[i+1..], trim)
  {
  }

  /** The inner loop. */
  method WriteLetters(val: int, bits: int, written: string) returns (valb: int, out: string)
    requires -6 <= bits
    ensures Accumulator(val, valb, out) == Emit(Accumulator(val, bits, written))
  {
    hide Shr, Letter, AlphabetAt;
    valb, out := bits, written;
    while valb >= 0
      invariant -6 <= valb && Emit(Accumulator(val, valb, out)) == Emit(Accumulator(val, bits, written))
    {
      out := out + [AlphabetAt(Shr(val, valb) % 64)];
      valb := valb - 6;
    }
  }

  method Base64Encode(s: string) returns (out: string)
    ensures out == Encode(s)
  {
    MachineWords();
    AccumulatorEncodes(Accumulator(0, -6, ""), s, ToInt32);
    hide Shr, Byte, Letter, AlphabetAt, Emit, EncodeRest, Encode, ToInt32;
    var val, valb := 0, -6;
    out := "";
    assert s[0..] == s;
    for i := 0 to |s|
      invariant -6 <= valb < 0
      invariant EncodeRest(Accumulator(val, valb, out), s[i..], ToInt32) == Encode(s)
    {
      EncodeNext(Accumulator(val, valb, out), s, i, ToInt32);
      val := ToInt32(val * 256 + Byte(s[i]));
      valb := valb + 8;
      valb, out := WriteLetters(val, valb, out);
    }
    assert s[|s|..] == "";
    EncodeLast(Accumulator(val, valb, out), ToInt32);
    if valb > -6 {
      out := out + [AlphabetAt(Shr(ToInt32(val * 256), valb + 8) % 64)];
    }
    out := Fill(out);
  }

  method Fill(letters: string) returns (out: string)
    ensures out == Pad(letters)
  {
    out := letters;
    while |out| % 4 != 0
      invariant Pad(out) == Pad(letters)
      decreases Missing(|out|)
    {
      out := out + "=";
    }
  }
}
