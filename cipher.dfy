/**
 The "Upgrade Cesar" cipher of lab_1/part1/main.py: a Vigenère cipher over the
 32-letter Russian alphabet (without Ё), one block of 32 code points for the
 capital letters (U+0410..U+042F) and one for the small letters
 (U+0430..U+044F). Characters are Unicode code points; the only case mapping
 needed is the one on that alphabet, where upper-casing subtracts 32.
 */
module Cipher {

  /** The ValueError / IndexError outcomes of the source, as values. */
  datatype CipherError =
    | InvalidKey          // prepare_key: a key character outside 'А'..'я'
    | EmptyText           // encrypt / decrypt on the empty string
    | InvalidText         // a text character neither a letter nor allowed punctuation
    | KeyIndexOutOfRange  // self.key[0] on an empty key, reached at the first letter

  datatype Result<T> = Success(value: T) | Failure(error: CipherError)

  /** Whether the key is added (encrypt) or subtracted (decrypt). */
  datatype Direction = Forward | Backward

  const UpperA: char := '\U{0410}'   // 'А'
  const UpperYa: char := '\U{042F}'  // 'Я'
  const LowerA: char := '\U{0430}'   // 'а'
  const LowerYa: char := '\U{044F}'  // 'я'
  const AlphabetSize: int := 32
  /** The non-letters a text may contain: space and , . : ; ! ? newline. */
  const Punctuation: string := " ,.:;!?\n"

  /** The range test 'А' <= c <= 'я' used for keys and texts. */
  predicate IsLetter(c: char) { UpperA <= c <= LowerYa }

  predicate IsUpper(c: char) { UpperA <= c <= UpperYa }

  predicate IsLower(c: char) { LowerA <= c <= LowerYa }

  predicate IsTextChar(c: char) { IsLetter(c) || c in Punctuation }

  predicate ValidText(s: string) { forall i | 0 <= i < |s| :: IsTextChar(s[i]) }

  predicate LetterFree(s: string) { forall i | 0 <= i < |s| :: !IsLetter(s[i]) }

  /** Number of letters in s: how often the key index has advanced after s. */
  function LetterCount(s: string): nat
  {
    if s == [] then 0 else (if IsLetter(s[0]) then 1 else 0) + LetterCount(s[1..])
  }

  /** Position of a letter in its own 32-letter block. */
  function AlphabetIndex(c: char): int
  {
    if IsUpper(c) then c as int - UpperA as int else c as int - LowerA as int
  }

  /** str.upper() on the letters 'А'..'я' and on the punctuation: small letters lose 32. */
  function ToUpper(c: char): (r: char)
    ensures IsLetter(c) ==> IsUpper(r) && AlphabetIndex(r) == AlphabetIndex(c)
    ensures !IsLower(c) ==> r == c
  {
    if IsLower(c) then (c as int - AlphabetSize) as char else c
  }

  function UpperString(s: string): (r: string)
    ensures |r| == |s|
    ensures forall i | 0 <= i < |s| :: r[i] == ToUpper(s[i])
  {
    seq(|s|, i requires 0 <= i < |s| => ToUpper(s[i]))
  }

  /**
   prepare_key: every character must lie in 'А'..'я', then the key is
   upper-cased. The empty key passes the check.
   */
  function PrepareKey(key: string): (r: Result<string>)
    ensures r.Failure? <==> exists i | 0 <= i < |key| :: !IsLetter(key[i])
    ensures r.Failure? ==> r.error == InvalidKey
    ensures r.Success? ==> |r.value| == |key|
    ensures r.Success? ==> forall i | 0 <= i < |key| :: r.value[i] == ToUpper(key[i]) && IsUpper(r.value[i])
  {
    if forall i | 0 <= i < |key| :: IsLetter(key[i]) then Success(UpperString(key)) else Failure(InvalidKey)
  }

  /** Preparing an already prepared key changes nothing. */
  lemma PrepareKeyIdempotent(key: string)
    requires PrepareKey(key).Success?
    ensures PrepareKey(PrepareKey(key).value) == PrepareKey(key)
  {
    var k := PrepareKey(key).value;
    assert forall i | 0 <= i < |k| :: IsLetter(k[i]);
    assert UpperString(k) == k;
  }

  /**
   shift_char: rotate a letter within its own block by `shift` positions,
   modulo 32 (a floor modulo, so negative shifts stay in the block); any
   other character is returned as it is.
   */
  function ShiftChar(c: char, shift: int): (r: char)
    ensures IsUpper(c) ==> IsUpper(r) && AlphabetIndex(r) == (AlphabetIndex(c) + shift) % AlphabetSize
    ensures IsLower(c) ==> IsLower(r) && AlphabetIndex(r) == (AlphabetIndex(c) + shift) % AlphabetSize
    ensures !IsLetter(c) ==> r == c
  {
    if IsUpper(c) then
      (UpperA as int + (c as int - UpperA as int + shift) % AlphabetSize) as char
    else if IsLower(c) then
      (LowerA as int + (c as int - LowerA as int + shift) % AlphabetSize) as char
    else
      c
  }

  lemma ModShiftBack(x: int, s: int)
    requires 0 <= x < AlphabetSize
    ensures ((x + s) % AlphabetSize - s) % AlphabetSize == x
  {
    var q := (x + s) / AlphabetSize;
    assert (x + s) % AlphabetSize - s == x - AlphabetSize * q;
  }

  /** Shifting by s and then by -s gives the character back: each block is permuted. */
  lemma ShiftCharInverse(c: char, s: int)
    ensures ShiftChar(ShiftChar(c, s), -s) == c
  {
    if IsLetter(c) {
      ModShiftBack(AlphabetIndex(c), s);
    }
  }

  /** The shift contributed by a key character: its distance from 'А'. */
  function KeyShift(k: char): int { k as int - UpperA as int }

  function Signed(dir: Direction, shift: int): int
  {
    match dir
    case Forward => shift
    case Backward => -shift
  }

  /**
   The loop of encrypt / decrypt over the upper-cased text u, starting with
   key index k: a letter is shifted by the current key character and moves the
   index on, cyclically; anything else is copied and leaves the index alone.
   Defined when the key can be indexed, or when no letter asks for it.
   */
  function ShiftStream(key: string, u: string, dir: Direction, k: nat): (r: string)
    requires k < |key| || LetterFree(u)
    decreases |u|
  {
    if u == [] then []
    else if IsLetter(u[0]) then
      [ShiftChar(u[0], Signed(dir, KeyShift(key[k])))] + ShiftStream(key, u[1..], dir, (k + 1) % |key|)
    else
      [u[0]] + ShiftStream(key, u[1..], dir, k)
  }

  /** The whole of encrypt (Forward) or decrypt (Backward), errors included. */
  function Transformed(key: string, text: string, dir: Direction): Result<string>
  {
    if text == [] then Failure(EmptyText)
    else if !ValidText(text) then Failure(InvalidText)
    else if key == [] && !LetterFree(text) then Failure(KeyIndexOutOfRange)
    else Success(ShiftStream(key, UpperString(text), dir, 0))
  }

  function Encrypted(key: string, text: string): Result<string> { Transformed(key, text, Forward) }

  function Decrypted(key: string, text: string): Result<string> { Transformed(key, text, Backward) }

  lemma LetterCountPrefix(u: string, j: int)
    requires 0 < j <= |u|
    ensures LetterCount(u[..j]) == (if IsLetter(u[0]) then 1 else 0) + LetterCount(u[1..][..j - 1])
  {
    assert u[..j][1..] == u[1..][..j - 1];
  }

  lemma ShiftStreamTail(key: string, u: string, dir: Direction, k: nat, j: int)
    requires k < |key|
    requires 0 < j < |u|
    ensures var next := if IsLetter(u[0]) then (k + 1) % |key| else k;
      |ShiftStream(key, u, dir, k)| == |u| &&
      |ShiftStream(key, u[1..], dir, next)| == |u| - 1 &&
      ShiftStream(key, u, dir, k)[j] == ShiftStream(key, u[1..], dir, next)[j - 1]
  {
    var next := if IsLetter(u[0]) then (k + 1) % |key| else k;
    ShiftStreamLength(key, u[1..], dir, next);
  }

  /** What the stream makes of character c when the key index is idx. */
  function StreamChar(key: string, dir: Direction, c: char, idx: nat): char
    requires idx < |key|
  {
    if IsLetter(c) then ShiftChar(c, Signed(dir, KeyShift(key[idx]))) else c
  }

  /** Key cycling: the letter at position j is shifted by the key character
      reached after the letters before j, counted from the starting index. */
  lemma {:induction false} ShiftStreamAt(key: string, u: string, dir: Direction, k: nat, j: int)
    requires k < |key|
    requires 0 <= j < |u|
    ensures |ShiftStream(key, u, dir, k)| == |u|
    ensures ShiftStream(key, u, dir, k)[j] == StreamChar(key, dir, u[j], (k + LetterCount(u[..j])) % |key|)
  {
    ShiftStreamLength(key, u, dir, k);
    if j == 0 {
      assert u[..0] == [];
      ModUnique(k, |key|, 0, k);
    } else {
      var next := if IsLetter(u[0]) then (k + 1) % |key| else k;
      ShiftStreamAt(key, u[1..], dir, next, j - 1);
      ShiftStreamTail(key, u, dir, k, j);
      LetterCountPrefix(u, j);
      assert u[1..][j - 1] == u[j];
      StreamIndexStep(k, |key|, IsLetter(u[0]), LetterCount(u[1..][..j - 1]));
    }
  }

  /** The key index after a first character and then `rest` letters. */
  lemma StreamIndexStep(k: nat, m: int, letter: bool, rest: nat)
    requires k < m
    ensures var next := if letter then (k + 1) % m else k;
      (k + ((if letter then 1 else 0) + rest)) % m == (next + rest) % m
  {
    if letter {
      ModAddLeft(k + 1, rest, m);
    }
  }

  lemma MulAtLeast(d: int, m: int)
    requires d >= 1 && m > 0
    ensures d * m >= m
  {
    assert (d - 1) * m >= 0;
  }

  /** The remainder is determined by any quotient/remainder split of x. */
  lemma ModUnique(x: int, m: int, q: int, r: int)
    requires m > 0 && 0 <= r < m && x == q * m + r
    ensures x % m == r
  {
    var d := x / m - q;
    assert d * m == r - x % m;
    if d >= 1 { MulAtLeast(d, m); }
    else if d <= -1 { MulAtLeast(-d, m); }
  }

  lemma ModAddLeft(a: int, b: int, m: int)
    requires m > 0
    ensures (a % m + b) % m == (a + b) % m
  {
    var y := a % m + b;
    assert a == (a / m) * m + a % m;
    assert y == (y / m) * m + y % m;
    assert a + b == (a / m + y / m) * m + y % m;
    ModUnique(a + b, m, a / m + y / m, y % m);
  }

  lemma {:induction false} ShiftStreamLength(key: string, u: string, dir: Direction, k: nat)
    requires k < |key| || LetterFree(u)
    ensures |ShiftStream(key, u, dir, k)| == |u|
    decreases |u|
  {
    if u != [] {
      var next := if IsLetter(u[0]) then (k + 1) % |key| else k;
      ShiftStreamLength(key, u[1..], dir, next);
    }
  }

  /** One step of the stream at position i of u. */
  lemma ShiftStreamUnfold(key: string, u: string, dir: Direction, k: nat, i: int)
    requires k < |key|
    requires 0 <= i < |u|
    ensures ShiftStream(key, u[i..], dir, k) ==
      if IsLetter(u[i]) then
        [ShiftChar(u[i], Signed(dir, KeyShift(key[k])))] + ShiftStream(key, u[i + 1..], dir, (k + 1) % |key|)
      else
        [u[i]] + ShiftStream(key, u[i + 1..], dir, k)
  {
    assert u[i..][1..] == u[i + 1..];
  }

  /** Without letters the key is never read and the text comes out unchanged. */
  lemma {:induction false} ShiftStreamLetterFree(key: string, u: string, dir: Direction, k: nat)
    requires LetterFree(u)
    ensures ShiftStream(key, u, dir, k) == u
    decreases |u|
  {
    if u != [] {
      ShiftStreamLetterFree(key, u[1..], dir, k);
    }
  }

  /** Output letters sit where input letters were, in the same block; the rest is copied. */
  lemma {:induction false} ShiftStreamShape(key: string, u: string, dir: Direction, k: nat)
    requires k < |key| || LetterFree(u)
    ensures |ShiftStream(key, u, dir, k)| == |u|
    ensures forall j | 0 <= j < |u| ::
      var r := ShiftStream(key, u, dir, k);
      && (IsLetter(r[j]) <==> IsLetter(u[j]))
      && (IsUpper(u[j]) ==> IsUpper(r[j]))
      && (!IsLetter(u[j]) ==> r[j] == u[j])
    decreases |u|
  {
    if u != [] {
      var next := if IsLetter(u[0]) then (k + 1) % |key| else k;
      ShiftStreamShape(key, u[1..], dir, next);
    }
  }

  /** Running the stream Backward over what it produced Forward, from the same
      key index, restores the input. */
  lemma {:induction false} ShiftStreamInverse(key: string, u: string, k: nat)
    requires k < |key| || LetterFree(u)
    ensures var e := ShiftStream(key, u, Forward, k);
      (k < |key| || LetterFree(e)) && ShiftStream(key, e, Backward, k) == u
    decreases |u|
  {
    ShiftStreamShape(key, u, Forward, k);
    var e := ShiftStream(key, u, Forward, k);
    if u != [] {
      var next := if IsLetter(u[0]) then (k + 1) % |key| else k;
      ShiftStreamInverse(key, u[1..], next);
      assert e[1..] == ShiftStream(key, u[1..], Forward, next);
      if IsLetter(u[0]) {
        ShiftCharInverse(u[0], KeyShift(key[k]));
      }
    }
  }

  /** encrypt / decrypt succeed exactly on non-empty valid texts whose letters
      can be keyed, and then keep length and punctuation and produce capitals. */
  lemma TransformedShape(key: string, text: string, dir: Direction)
    ensures Transformed(key, text, dir).Failure? <==>
      text == [] || !ValidText(text) || (key == [] && !LetterFree(text))
    ensures text == [] ==> Transformed(key, text, dir) == Failure(EmptyText)
    ensures text != [] && !ValidText(text) ==> Transformed(key, text, dir) == Failure(InvalidText)
    ensures Transformed(key, text, dir).Success? ==>
      var r := Transformed(key, text, dir).value;
      && |r| == |text|
      && forall j | 0 <= j < |text| ::
        && (!IsLetter(text[j]) ==> r[j] == text[j])
        && (IsLetter(text[j]) ==> IsUpper(r[j]))
  {
    if text != [] && ValidText(text) && !(key == [] && !LetterFree(text)) {
      ShiftStreamShape(key, UpperString(text), dir, 0);
    }
  }

  /** The round trip: decrypting what was encrypted gives the upper-cased text. */
  lemma RoundTrip(key: string, text: string)
    requires Encrypted(key, text).Success?
    ensures Decrypted(key, Encrypted(key, text).value) == Success(UpperString(text))
  {
    var u := UpperString(text);
    ShiftStreamShape(key, u, Forward, 0);
    ShiftStreamInverse(key, u, 0);
    var e := Encrypted(key, text).value;
    assert forall j | 0 <= j < |e| :: IsTextChar(e[j]) by {
      forall j | 0 <= j < |e| ensures IsTextChar(e[j]) {
        assert IsTextChar(text[j]);
      }
    }
    assert UpperString(e) == e by {
      forall j | 0 <= j < |e| ensures ToUpper(e[j]) == e[j] {
        assert IsUpper(e[j]) || !IsLetter(e[j]);
      }
    }
  }

  lemma {:induction false} LetterCountSameShape(s: string, t: string)
    requires |s| == |t|
    requires forall i | 0 <= i < |s| :: IsLetter(s[i]) <==> IsLetter(t[i])
    ensures LetterCount(s) == LetterCount(t)
  {
    if s != [] {
      assert IsLetter(s[0]) <==> IsLetter(t[0]);
      LetterCountSameShape(s[1..], t[1..]);
    }
  }

  /** Key cycling in terms of the original text: the letter at position j is
      shifted by the key character at (number of letters before j) mod |key|;
      other characters are copied. */
  lemma KeyCycling(key: string, text: string, dir: Direction, j: int)
    requires Transformed(key, text, dir).Success? && key != []
    requires 0 <= j < |text|
    ensures |Transformed(key, text, dir).value| == |text|
    ensures Transformed(key, text, dir).value[j] ==
      if IsLetter(text[j]) then ShiftChar(ToUpper(text[j]), Signed(dir, KeyShift(key[LetterCount(text[..j]) % |key|])))
      else text[j]
  {
    var u := UpperString(text);
    ShiftStreamAt(key, u, dir, 0, j);
    LetterCountSameShape(u[..j], text[..j]);
  }

  /** A worked example: key КОТ on ПРИВЕТ cycles К, О, Т, К, О, Т and gives ЩЮЪМУД. */
  lemma EncryptExample()
    ensures Encrypted("\U{041A}\U{041E}\U{0422}", "\U{041F}\U{0420}\U{0418}\U{0412}\U{0415}\U{0422}")
         == Success("\U{0429}\U{042E}\U{042A}\U{041C}\U{0423}\U{0414}")
  {
    var key := "\U{041A}\U{041E}\U{0422}";
    var text := "\U{041F}\U{0420}\U{0418}\U{0412}\U{0415}\U{0422}";
    assert ValidText(text);
    assert UpperString(text) == text;
    assert ShiftStream(key, text[5..], Forward, 2) == "\U{0414}";
    assert ShiftStream(key, text[4..], Forward, 1) == "\U{0423}\U{0414}";
    assert ShiftStream(key, text[3..], Forward, 0) == "\U{041C}\U{0423}\U{0414}";
    assert ShiftStream(key, text[2..], Forward, 2) == "\U{042A}\U{041C}\U{0423}\U{0414}";
    assert ShiftStream(key, text[1..], Forward, 1) == "\U{042E}\U{042A}\U{041C}\U{0423}\U{0414}";
    assert ShiftStream(key, text, Forward, 0) == "\U{0429}\U{042E}\U{042A}\U{041C}\U{0423}\U{0414}";
    assert Encrypted(key, text) == Success(ShiftStream(key, UpperString(text), Forward, 0));
  }

  /** What the loop of encrypt / decrypt knows after i characters: with a key,
      the output so far followed by the stream of the rest is the whole stream;
      without one, no letter has been met and the output is the text so far. */
  ghost predicate WalkInvariant(key: string, u: string, dir: Direction, i: int, out: string, keyIndex: nat)
  {
    && 0 <= i <= |u|
    && if key != [] then
         keyIndex < |key| && out + ShiftStream(key, u[i..], dir, keyIndex) == ShiftStream(key, u, dir, 0)
       else
         keyIndex == 0 && out == u[..i] && LetterFree(u[..i])
  }

  lemma WalkStepKeyed(key: string, u: string, dir: Direction, i: int, out: string, keyIndex: nat)
    requires key != [] && WalkInvariant(key, u, dir, i, out, keyIndex) && i < |u|
    ensures IsLetter(u[i]) ==>
      WalkInvariant(key, u, dir, i + 1, out + [ShiftChar(u[i], Signed(dir, KeyShift(key[keyIndex])))], (keyIndex + 1) % |key|)
    ensures !IsLetter(u[i]) ==> WalkInvariant(key, u, dir, i + 1, out + [u[i]], keyIndex)
  {
    ShiftStreamUnfold(key, u, dir, keyIndex, i);
  }

  lemma WalkStepKeyless(u: string, dir: Direction, i: int, out: string)
    requires WalkInvariant([], u, dir, i, out, 0) && i < |u|
    ensures IsLetter(u[i]) ==> !LetterFree(u)
    ensures !IsLetter(u[i]) ==> WalkInvariant([], u, dir, i + 1, out + [u[i]], 0)
  {
    assert u[..i + 1] == u[..i] + [u[i]];
  }

  lemma WalkStep(key: string, u: string, dir: Direction, i: int, out: string, keyIndex: nat)
    requires WalkInvariant(key, u, dir, i, out, keyIndex) && i < |u|
    ensures IsLetter(u[i]) && keyIndex >= |key| ==> key == [] && !LetterFree(u)
    ensures IsLetter(u[i]) && keyIndex < |key| ==>
      WalkInvariant(key, u, dir, i + 1, out + [ShiftChar(u[i], Signed(dir, KeyShift(key[keyIndex])))], (keyIndex + 1) % |key|)
    ensures !IsLetter(u[i]) ==> WalkInvariant(key, u, dir, i + 1, out + [u[i]], keyIndex)
  {
    if key != [] {
      WalkStepKeyed(key, u, dir, i, out, keyIndex);
    } else {
      WalkStepKeyless(u, dir, i, out);
    }
  }

  lemma WalkDone(key: string, u: string, dir: Direction, out: string, keyIndex: nat)
    requires WalkInvariant(key, u, dir, |u|, out, keyIndex)
    ensures key != [] || LetterFree(u)
    ensures out == ShiftStream(key, u, dir, 0)
  {
    assert u[|u|..] == [];
    if key == [] {
      assert u[..|u|] == u;
      ShiftStreamLetterFree(key, u, dir, 0);
    }
  }

  /** The cipher object: the prepared key, fixed for its lifetime. */
  class UpgradeCesarCipher {
    const key: string

    constructor (preparedKey: string)
      ensures key == preparedKey
    {
      key := preparedKey;
    }

    /** __init__: prepare the key, or fail with InvalidKey. */
    static method New(rawKey: string) returns (r: Result<UpgradeCesarCipher>)
      ensures r.Failure? <==> PrepareKey(rawKey).Failure?
      ensures r.Failure? ==> r.error == InvalidKey
      ensures r.Success? ==> fresh(r.value) && r.value.key == PrepareKey(rawKey).value
    {
      var prepared := PrepareKey(rawKey);
      if prepared.Failure? {
        return Failure(InvalidKey);
      }
      var cipher := new UpgradeCesarCipher(prepared.value);
      return Success(cipher);
    }

    /** encrypt */
    method Encrypt(text: string) returns (r: Result<string>)
      ensures r == Encrypted(key, text)
    {
      r := Run(text, Forward);
    }

    /** decrypt */
    method Decrypt(text: string) returns (r: Result<string>)
      ensures r == Decrypted(key, text)
    {
      r := Run(text, Backward);
    }

    /** The body shared by encrypt and decrypt: validate, upper-case, then walk
        the text. */
    method Run(text: string, dir: Direction) returns (r: Result<string>)
      ensures r == Transformed(key, text, dir)
    {
      if text == [] {
        return Failure(EmptyText);
      }
      if !ValidText(text) {
        return Failure(InvalidText);
      }
      var u := UpperString(text);
      assert LetterFree(u) <==> LetterFree(text) by {
        assert forall j | 0 <= j < |u| :: IsLetter(u[j]) <==> IsLetter(text[j]);
      }
      r := Walk(u, dir);
    }

    /** The loop of encrypt / decrypt over the upper-cased text u, with a key
        index that moves on, cyclically, only at letters. */
    method Walk(u: string, dir: Direction) returns (r: Result<string>)
      ensures key == [] && !LetterFree(u) ==> r == Failure(KeyIndexOutOfRange)
      ensures key != [] || LetterFree(u) ==> r == Success(ShiftStream(key, u, dir, 0))
    {
      var out: string := [];
      var keyIndex: nat := 0;
      assert u[0..] == u;
      for i := 0 to |u|
        invariant WalkInvariant(key, u, dir, i, out, keyIndex)
      {
        var c := u[i];
        WalkStep(key, u, dir, i, out, keyIndex);
        if IsLetter(c) {
          if keyIndex >= |key| {
            // self.key[key_index] raises IndexError: only possible for the empty key
            return Failure(KeyIndexOutOfRange);
          }
          var shift := KeyShift(key[keyIndex]);
          out := out + [ShiftChar(c, Signed(dir, shift))];
          keyIndex := (keyIndex + 1) % |key|;
        } else {
          out := out + [c];
        }
      }
      WalkDone(key, u, dir, out, keyIndex);
      return Success(out);
    }
  }
}
