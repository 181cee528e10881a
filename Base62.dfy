/**
 * ChestShop's base-62 item identifiers: positional evaluation over a fixed
 * alphabet (digits, then lower case, then upper case), most significant symbol
 * first, with no bound on the magnitude.
 */
module Base62 {
  import opened Wrappers
  import opened Strings

  /**
   * The symbol alphabet, digits first, then lower case, then upper case; the
   * position of a symbol is its digit value. It is built from the code points
   * of its symbols (SymbolCode); AlphabetParts spells it out.
   */
  const Alphabet: string := seq(62, i requires 0 <= i < 62 => SymbolCode(i) as char)
  const Digits: string := "0123456789"
  const Lower: string := "abcdefghijklmnopqrstuvwxyz"
  const Upper: string := "ABCDEFGHIJKLMNOPQRSTUVWXYZ"

  /** A symbol of the alphabet: a decimal digit or an ASCII letter (see SymbolPosition). */
  predicate IsSymbol(c: char) {
    '0' <= c <= '9' || 'a' <= c <= 'z' || 'A' <= c <= 'Z'
  }

  /** Every character of `s` is a symbol of the alphabet. */
  predicate IsEncoded(s: string) {
    forall k | 0 <= k < |s| :: IsSymbol(s[k])
  }

  /** The digit value of a symbol: its position in the alphabet (see SymbolPosition). */
  function Digit(c: char): (d: nat)
    requires IsSymbol(c)
    ensures d < 62
  {
    if c <= '9' then c as int - '0' as int
    else if 'a' <= c then c as int - 'a' as int + 10
    else c as int - 'A' as int + 36
  }

  /** The positional value of an encoded string, most significant symbol first. */
  function Value(s: string): nat
    requires IsEncoded(s)
  {
    if s == [] then 0 else Value(s[..|s| - 1]) * 62 + Digit(s[|s| - 1])
  }

  /** What decoding yields: the value, or None when some character is not a symbol. */
  function Decoded(s: string): Option<nat> {
    if IsEncoded(s) then Some(Value(s)) else None
  }

  /**
   * Decodes `s` symbol by symbol into an accumulator, looking each symbol up in
   * the alphabet; a character outside it makes the lookup fail and no value is
   * returned.
   */
  method Decode(s: string) returns (r: Option<nat>)
    ensures r == Decoded(s)
  {
    AlphabetLayout();
    var decoded: nat := 0;
    var base := |Alphabet|;
    for i := 0 to |s|
      invariant Decoded(s[..i]) == Some(decoded)
    {
      var value := IndexOf(Alphabet, s[i]);
      SymbolPosition(s[i]);
      if value.None? {
        return None;
      }
      DecodeStep(s, i, decoded, base, value.value);
      decoded := decoded * base + value.value;
    }
    assert s[..|s|] == s;
    return Some(decoded);
  }

  /** One step of the loop: the next symbol, of digit value `digit`, extends the decoded prefix. */
  lemma DecodeStep(s: string, i: nat, decoded: nat, base: nat, digit: nat)
    requires i < |s| && IsSymbol(s[i]) && Decoded(s[..i]) == Some(decoded)
    requires base == 62 && digit == Digit(s[i])
    ensures Decoded(s[..i + 1]) == Some(decoded * base + digit)
  {
    ValueSnoc(s[..i], s[i]);
    assert s[..i] + [s[i]] == s[..i + 1];
  }

  // ---------------------------------------------------------------- the alphabet

  /** The code point of the symbol at position `i`. */
  function SymbolCode(i: int): (n: int)
    requires 0 <= i < 62
    ensures 0 <= n < 128
  {
    if i < 10 then '0' as int + i
    else if i < 36 then 'a' as int + (i - 10)
    else 'A' as int + (i - 36)
  }

  lemma DigitsFirst()
    ensures Alphabet[..10] == Digits
  {
  }

  lemma LowerNext()
    ensures Alphabet[10..36] == Lower
  {
  }

  lemma UpperLast()
    ensures Alphabet[36..] == Upper
  {
  }

  /** The alphabet is the digits, the lower-case letters, then the upper-case letters. */
  lemma AlphabetParts()
    ensures Alphabet == Digits + Lower + Upper
  {
    DigitsFirst();
    LowerNext();
    UpperLast();
    assert Alphabet == Alphabet[..10] + Alphabet[10..36] + Alphabet[36..];
  }

  /** Each symbol sits at the position its code point gives. */
  lemma AlphabetLayout()
    ensures |Alphabet| == 62
    ensures forall i | 0 <= i < 62 :: Alphabet[i] as int == SymbolCode(i)
  {
  }

  /**
   * Looking a character up in the alphabet (`str.index`) finds exactly the
   * symbols, each at the position that is its digit value.
   */
  lemma SymbolPosition(c: char)
    ensures IndexOf(Alphabet, c) == if IsSymbol(c) then Some(Digit(c)) else None
    ensures c in Alphabet <==> IsSymbol(c)
  {
    AlphabetLayout();
    IndexOfSpec(Alphabet, c);
    if IsSymbol(c) {
      IndexOfAt(Alphabet, c, Digit(c));
    }
  }

  /** Decoding fails exactly when some character of the input is not in the alphabet. */
  lemma DecodeFails(s: string)
    ensures Decoded(s) == None <==> exists k | 0 <= k < |s| :: s[k] !in Alphabet
  {
    if Decoded(s) == None {
      var k :| 0 <= k < |s| && !IsSymbol(s[k]);
      SymbolPosition(s[k]);
    } else {
      forall k | 0 <= k < |s| ensures s[k] in Alphabet { SymbolPosition(s[k]); }
    }
  }

  // ---------------------------------------------------------------- properties of the value

  lemma ValueEmpty()
    ensures Decoded("") == Some(0)
  {
  }

  /** Appending a symbol shifts the value by one position and adds the symbol's digit. */
  lemma ValueSnoc(s: string, c: char)
    requires IsEncoded(s) && IsSymbol(c)
    ensures Decoded(s + [c]) == Some(Value(s) * 62 + Digit(c))
  {
    assert IsEncoded(s + [c]);
    assert (s + [c])[..|s|] == s;
  }

  function Pow(b: nat, e: nat): nat {
    if e == 0 then 1 else b * Pow(b, e - 1)
  }

  /** An encoded string of n symbols denotes a value below 62^n. */
  lemma {:induction false} ValueBound(s: string)
    requires IsEncoded(s)
    ensures Value(s) < Pow(62, |s|)
  {
    if s != [] {
      var p := s[..|s| - 1];
      ValueBound(p);
      assert Value(s) == Value(p) * 62 + Digit(s[|s| - 1]);
      assert Value(p) * 62 + Digit(s[|s| - 1]) < (Value(p) + 1) * 62;
      assert (Value(p) + 1) * 62 <= Pow(62, |p|) * 62;
    }
  }

  /** Leading zero symbols do not change the value, so encodings are not unique. */
  lemma {:induction false} LeadingZero(s: string)
    requires IsEncoded(s)
    ensures IsEncoded("0" + s) && Value("0" + s) == Value(s)
  {
    if s != [] {
      var p := s[..|s| - 1];
      assert ("0" + s)[..|s|] == "0" + p;
      LeadingZero(p);
    }
  }

  /** The worked values: "0" is 0, "10" is 62, "1Z" is 1 * 62 + 61, and "2NV". */
  lemma ValueExamples()
    ensures Decoded("0") == Some(0)
    ensures Decoded("10") == Some(62)
    ensures Decoded("1Z") == Some(123)
    ensures Decoded("2NV") == Some(2 * 62 * 62 + 49 * 62 + 57)
  {
    assert "10"[..1] == "1" && "1"[..0] == "";
    assert "1Z"[..1] == "1";
    assert "2NV"[..2] == "2N" && "2N"[..1] == "2" && "2"[..0] == "";
  }

  // ---------------------------------------------------------------- the inverse

  /** The symbol whose digit value is `d`. */
  function Symbol(d: nat): (c: char)
    requires d < 62
    ensures IsSymbol(c) && Digit(c) == d
  {
    SymbolCode(d) as char
  }

  /** The canonical encoding of `n`: no leading zero symbol except for 0 itself. */
  function Encode(n: nat): (s: string)
    ensures IsEncoded(s) && |s| >= 1
  {
    if n < 62 then [Symbol(n)] else Encode(n / 62) + [Symbol(n % 62)]
  }

  /** Decoding undoes encoding. */
  lemma {:induction false} DecodeEncode(n: nat)
    ensures Decoded(Encode(n)) == Some(n)
  {
    var s := Encode(n);
    if n < 62 {
      assert s == [Symbol(n)] && s[..0] == [];
      assert Value(s) == Value([]) * 62 + Digit(Symbol(n));
    } else {
      DecodeEncode(n / 62);
      assert s[..|s| - 1] == Encode(n / 62);
    }
  }
}
