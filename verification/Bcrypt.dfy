/** The password hasher as the service uses it: `bcrypt.hash(password, 10)`
    and `bcrypt.compare(password, hash)`. Salt generation and the cost factor
    are inside the library; the model keeps only the two functions and states,
    as a predicate, what the library promises about them. bcrypt hashes the
    UTF-8 bytes of the password and uses only the first 72 of them. */
module Bcrypt {
  import opened AuthTypes

  type Byte = b: int | 0 <= b < 256

  /** bcrypt keys are at most this many bytes; later bytes are ignored. */
  const MaxKeyBytes := 72

  /** A continuation byte `10xxxxxx`. */
  predicate IsTrailing(b: Byte) {
    0x80 <= b < 0xC0
  }

  /** The UTF-8 encoding of one Unicode scalar value: the number of bytes is
      fixed by the range of the value, the first byte announces that number,
      every later byte is a continuation byte, and the value is read back
      from the payload bits, six per continuation byte. */
  function Utf8Char(c: char): (bytes: seq<Byte>)
    ensures 1 <= |bytes| <= 4
    ensures |bytes| == 1 <==> c as int < 0x80
    ensures |bytes| == 2 <==> 0x80 <= c as int < 0x800
    ensures |bytes| == 3 <==> 0x800 <= c as int < 0x1_0000
    ensures |bytes| == 4 <==> 0x1_0000 <= c as int
    ensures |bytes| == 1 ==> bytes[0] == c as int
    ensures |bytes| == 2 ==>
              && 0xC0 <= bytes[0] < 0xE0 && IsTrailing(bytes[1])
              && (bytes[0] as int - 0xC0) * 0x40 + (bytes[1] as int - 0x80) == c as int
    ensures |bytes| == 3 ==>
              && 0xE0 <= bytes[0] < 0xF0 && IsTrailing(bytes[1]) && IsTrailing(bytes[2])
              && (bytes[0] as int - 0xE0) * 0x1000 + (bytes[1] as int - 0x80) * 0x40 + (bytes[2] as int - 0x80) == c as int
    ensures |bytes| == 4 ==>
              && 0xF0 <= bytes[0] < 0xF8 && IsTrailing(bytes[1]) && IsTrailing(bytes[2]) && IsTrailing(bytes[3])
              && (bytes[0] as int - 0xF0) * 0x4_0000 + (bytes[1] as int - 0x80) * 0x1000 + (bytes[2] as int - 0x80) * 0x40
                   + (bytes[3] as int - 0x80) == c as int
  {
    var n := c as int;
    var (q1, r1) := Low6(n);
    var (q2, r2) := Low6(q1);
    var (q3, r3) := Low6(q2);
    if n < 0x80 then [n]
    else if n < 0x800 then [0xC0 + q1, 0x80 + r1]
    else if n < 0x1_0000 then [0xE0 + q2, 0x80 + r2, 0x80 + r1]
    else [0xF0 + q3, 0x80 + r3, 0x80 + r2, 0x80 + r1]
  }

  /** A number split into its low six bits and the rest. */
  function Low6(n: nat): (qr: (nat, nat))
    ensures qr.1 < 0x40 && n == qr.0 * 0x40 + qr.1
  {
    (n / 0x40, n % 0x40)
  }

  /** The UTF-8 encoding of a string, as bcrypt receives a JavaScript string. */
  function Utf8(s: string): (bytes: seq<Byte>)
    ensures |s| <= |bytes| <= 4 * |s|
    ensures (forall i :: 0 <= i < |s| ==> s[i] as int < 0x80) ==> |bytes| == |s|
  {
    if s == [] then [] else Utf8Char(s[0]) + Utf8(s[1..])
  }

  /** Encoding distributes over concatenation. */
  lemma {:induction false} Utf8Concat(a: string, b: string)
    ensures Utf8(a + b) == Utf8(a) + Utf8(b)
    decreases |a|
  {
    if a == [] {
      assert a + b == b;
    } else {
      assert (a + b)[0] == a[0] && (a + b)[1..] == a[1..] + b;
      Utf8Concat(a[1..], b);
    }
  }

  /** The first byte of a character's encoding tells how long it is, and
      the bytes give the character back, so no encoding is a prefix of another. */
  lemma Utf8CharPrefixFree(a: char, b: char, x: seq<Byte>, y: seq<Byte>)
    requires Utf8Char(a) + x == Utf8Char(b) + y
    ensures a == b && x == y
  {
    var ea, eb := Utf8Char(a), Utf8Char(b);
    assert ea[0] == (ea + x)[0] == (eb + y)[0] == eb[0];
    assert |ea| == |eb|;
    assert ea == (ea + x)[..|ea|] == (eb + y)[..|eb|] == eb;
    assert a as int == b as int;
    assert x == (ea + x)[|ea|..] == (eb + y)[|eb|..] == y;
  }

  /** Different passwords have different encodings: UTF-8 loses nothing. */
  lemma {:induction false} Utf8Injective(a: string, b: string)
    requires Utf8(a) == Utf8(b)
    ensures a == b
    decreases |a|
  {
    if a == [] {
      assert |b| <= |Utf8(b)| == 0;
    } else {
      assert b != [];
      Utf8CharPrefixFree(a[0], b[0], Utf8(a[1..]), Utf8(b[1..]));
      Utf8Injective(a[1..], b[1..]);
      assert a == [a[0]] + a[1..] && b == [b[0]] + b[1..];
    }
  }

  /** The part of a password bcrypt actually hashes: its first 72 UTF-8 bytes. */
  function Key(pw: string): (k: seq<Byte>)
    ensures |k| == if |Utf8(pw)| <= MaxKeyBytes then |Utf8(pw)| else MaxKeyBytes
    ensures k <= Utf8(pw)
    ensures |Utf8(pw)| <= MaxKeyBytes ==> k == Utf8(pw)
  {
    var bytes := Utf8(pw);
    if |bytes| <= MaxKeyBytes then bytes else bytes[..MaxKeyBytes]
  }

  /** Once a password is 72 bytes long, whatever follows it is not hashed. */
  lemma KeyIgnoresTail(pw: string, tail: string)
    requires |Utf8(pw)| >= MaxKeyBytes
    ensures Key(pw + tail) == Key(pw)
  {
    var head, rest := Utf8(pw), Utf8(tail);
    Utf8Concat(pw, tail);
    var long, short := Key(pw + tail), Key(pw);
    assert |long| == MaxKeyBytes == |short|;
    forall i | 0 <= i < MaxKeyBytes
      ensures long[i] == short[i]
    {
      assert long[i] == (head + rest)[i] == head[i];
    }
  }

  /** An abstract bcrypt: `hash` mixes a per-call salt into the password, and
      `compare` checks a password against a stored hash. */
  datatype Hasher = Hasher(hash: (string, Salt) -> string, compare: (string, string) -> bool)

  /** The library's contract, assumed and never proved: a password matches
      every hash made from any password with the same 72-byte key; a password
      with a different key does not match (stated for passwords without a NUL
      character only); and a hash is never the password itself. */
  ghost predicate Sound(h: Hasher) {
    && (forall pw: string, other: string, salt: Salt ::
          Key(other) == Key(pw) ==> h.compare(other, h.hash(pw, salt)))
    && (forall pw: string, other: string, salt: Salt ::
          Key(other) != Key(pw) && '\0' !in pw && '\0' !in other ==> !h.compare(other, h.hash(pw, salt)))
    && (forall pw: string, salt: Salt :: h.hash(pw, salt) != pw)
  }
}
