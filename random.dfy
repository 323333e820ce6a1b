/**
 Model of the alias generator in internal/lib/random/random.go.

 `NewRandomString(size)` allocates a rune buffer of `size` slots and fills
 each slot with a character of a fixed 62-character alphabet, picked with
 `rand.Intn(62)`. The pseudo-random source is not modelled: the values it
 hands out during one call are a parameter, `draws`, one per slot, each in
 the range `rand.Intn` promises.
 */
module RandomAlias {

  /** The alphabet the generator draws from: upper-case letters, lower-case
      letters, then decimal digits. */
  const Alphabet: string :=
    "ABCDEFGHIJKLMNOPQRSTUVWXYZ" +
    "abcdefghijklmnopqrstuvwxyz" +
    "0123456789"

  predicate IsAlphanumeric(c: char)
  {
    ('A' <= c <= 'Z') || ('a' <= c <= 'z') || ('0' <= c <= '9')
  }

  /** The character at position `k` of the alphabet, computed from the three
      contiguous ranges of the character set. */
  function Symbol(k: int): (c: char)
    requires 0 <= k < 62
    ensures IsAlphanumeric(c)
  {
    if k < 26 then ('A' as int + k) as char
    else if k < 52 then ('a' as int + (k - 26)) as char
    else ('0' as int + (k - 52)) as char
  }

  /** The position of an alphanumeric character in the alphabet. */
  function Position(c: char): (k: int)
    requires IsAlphanumeric(c)
    ensures 0 <= k < 62 && Symbol(k) == c
  {
    if 'A' <= c <= 'Z' then c as int - 'A' as int
    else if 'a' <= c <= 'z' then 26 + (c as int - 'a' as int)
    else 52 + (c as int - '0' as int)
  }

  lemma AlphabetBySymbol()
    ensures |Alphabet| == 62
    ensures forall k :: 0 <= k < 62 ==> Alphabet[k] == Symbol(k)
  {
  }

  /** The alphabet has 62 distinct characters, exactly the ASCII letters and
      digits, so every index `rand.Intn(62)` can return is in bounds. */
  lemma AlphabetShape()
    ensures |Alphabet| == 62
    ensures forall i, j :: 0 <= i < j < |Alphabet| ==> Alphabet[i] != Alphabet[j]
    ensures forall c :: c in Alphabet <==> IsAlphanumeric(c)
    ensures forall i :: 0 <= i < |Alphabet| ==> Alphabet[i] as int < 0x80
  {
    AlphabetBySymbol();
    forall i, j | 0 <= i < j < |Alphabet| ensures Alphabet[i] != Alphabet[j] {
      assert Position(Symbol(i)) == i && Position(Symbol(j)) == j;
    }
    forall c | IsAlphanumeric(c) ensures c in Alphabet {
      assert Alphabet[Position(c)] == c;
    }
  }

  /** Number of bytes of the UTF-8 encoding of one code point, as Go's
      `string(runes)` conversion produces it. */
  function Utf8Width(c: char): (n: nat)
    ensures 1 <= n <= 4
  {
    if c as int < 0x80 then 1
    else if c as int < 0x800 then 2
    else if c as int < 0x1_0000 then 3
    else 4
  }

  /** Byte length of the UTF-8 encoding of `s`: what Go's `len` returns for
      the string built from the runes of `s`. */
  function Utf8Length(s: string): (n: nat)
    ensures |s| <= n <= 4 * |s|
  {
    if s == [] then 0 else Utf8Width(s[0]) + Utf8Length(s[1..])
  }

  /** A string of ASCII characters has one byte per character. */
  lemma {:induction false} AsciiUtf8Length(s: string)
    requires forall i :: 0 <= i < |s| ==> s[i] as int < 0x80
    ensures Utf8Length(s) == |s|
  {
    if s != [] {
      AsciiUtf8Length(s[1..]);
    }
  }

  /** A string over the alphabet, such as a generated alias, has as many
      UTF-8 bytes as characters: Go's `len` of it is its character count.
      (Without `{:induction false}` Dafny would prove this by its own
      induction on `s` instead of through `AsciiUtf8Length`.) */
  lemma {:induction false} AlphanumericUtf8Length(s: string)
    requires forall i :: 0 <= i < |s| ==> IsAlphanumeric(s[i])
    ensures Utf8Length(s) == |s|
  {
    AsciiUtf8Length(s);
  }

  /** `NewRandomString(size)`: slot `i` of the result is the alphabet
      character at the `i`-th index drawn. `size` is a `nat` because Go's
      `make` panics on a negative length. */
  method NewRandomString(size: nat, draws: seq<nat>) returns (s: string)
    requires |draws| == size
    requires forall i :: 0 <= i < |draws| ==> draws[i] < |Alphabet|
    ensures |s| == size
    ensures forall i :: 0 <= i < size ==> s[i] == Alphabet[draws[i]]
    ensures forall i :: 0 <= i < size ==> IsAlphanumeric(s[i])
  {
    var buf := new char[size];
    var i := 0;
    while i < size
      invariant 0 <= i <= size
      invariant forall k :: 0 <= k < i ==> buf[k] == Alphabet[draws[k]]
    {
      buf[i] := Alphabet[draws[i]];
      i := i + 1;
    }
    s := buf[..];
    AlphabetShape();
  }

  /** What the test checks with `len`: a result of `NewRandomString`, as its
      postcondition describes it, has exactly `size` UTF-8 bytes. */
  lemma GeneratedByteLength(size: nat, draws: seq<nat>, s: string)
    requires |draws| == size
    requires forall i :: 0 <= i < |draws| ==> draws[i] < |Alphabet|
    requires |s| == size
    requires forall i :: 0 <= i < size ==> s[i] == Alphabet[draws[i]]
    ensures Utf8Length(s) == size
  {
    AlphabetShape();
    AlphanumericUtf8Length(s);
  }
}
