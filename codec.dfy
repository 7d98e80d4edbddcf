/**
 * The short-code codec of urlshorten.py: natural numbers written in base
 * |Text| with the digit alphabet Text, least-significant digit first.
 */
module Codec {
  import opened Wrappers

  // The alphabet literal of urlshorten.py:31, in six pieces of eleven so
  // that the verifier can check the distinctness of its characters block by
  // block.
  const Text0: string := "DsU~CF6hjX2"
  const Text1: string := "u5QpolMWaNm"
  const Text2: string := "Lr8keVqzR0_"
  const Text3: string := "3tn7HdOyJbZ"
  const Text4: string := ".TI1AgfExB4"
  const Text5: string := "SP9GiwYcvK-"

  /** The digit alphabet: Text[d] is the symbol of digit value d. */
  const Text: string := Text0 + Text1 + Text2 + Text3 + Text4 + Text5

  /** The number base, the length of the alphabet (TextDistinct proves |Text| == Base). */
  const Base: nat := 66

  /** A digit value, an index into the alphabet. */
  type DigitIndex = d: nat | d < Base witness 0

  predicate Distinct(s: string)
  {
    forall i, j | 0 <= i < j < |s| :: s[i] != s[j]
  }

  predicate Disjoint(a: string, b: string)
  {
    forall i, j | 0 <= i < |a| && 0 <= j < |b| :: a[i] != b[j]
  }

  lemma DistinctConcat(a: string, b: string)
    requires Distinct(a) && Distinct(b) && Disjoint(a, b)
    ensures Distinct(a + b)
  {
    forall i, j | 0 <= i < j < |a + b| ensures (a + b)[i] != (a + b)[j] {
      if j < |a| {
        assert (a + b)[i] == a[i] && (a + b)[j] == a[j];
      } else if i < |a| {
        assert (a + b)[i] == a[i] && (a + b)[j] == b[j - |a|];
      } else {
        assert (a + b)[i] == b[i - |a|] && (a + b)[j] == b[j - |a|];
      }
    }
  }

  lemma DisjointConcat(a: string, b: string, c: string)
    requires Disjoint(a, c) && Disjoint(b, c)
    ensures Disjoint(a + b, c)
  {
    forall i, j | 0 <= i < |a + b| && 0 <= j < |c| ensures (a + b)[i] != c[j] {
      if i < |a| {
        assert (a + b)[i] == a[i];
      } else {
        assert (a + b)[i] == b[i - |a|];
      }
    }
  }

  /** The k-th piece of the alphabet. */
  function Piece(k: nat): (r: string)
    requires k < 6
  {
    [Text0, Text1, Text2, Text3, Text4, Text5][k]
  }

  /** The first k pieces of the alphabet, joined. */
  function Prefix(k: nat): (r: string)
    requires k <= 6
  {
    if k == 0 then [] else Prefix(k - 1) + Piece(k - 1)
  }

  /** No piece repeats a symbol. */
  lemma PieceDistinct(k: nat)
    requires k < 6
    ensures Distinct(Piece(k))
  {
    var p := Piece(k);
    forall i | 0 <= i < |p| ensures forall j | i < j < |p| :: p[i] != p[j] {
    }
  }

  // Two pieces share no symbol. One lemma per pair: a single lemma over a
  // symbolic pair of pieces, or over one piece against every later one,
  // leaves the solver comparing too many symbols at once to stay well within
  // its resource bound.

  lemma Disjoint01()
    ensures Disjoint(Text0, Text1)
  {
    forall i | 0 <= i < |Text0| ensures Text0[i] !in Text1 {
    }
  }

  lemma Disjoint02()
    ensures Disjoint(Text0, Text2)
  {
    forall i | 0 <= i < |Text0| ensures Text0[i] !in Text2 {
    }
  }

  lemma Disjoint03()
    ensures Disjoint(Text0, Text3)
  {
    forall i | 0 <= i < |Text0| ensures Text0[i] !in Text3 {
    }
  }

  lemma Disjoint04()
    ensures Disjoint(Text0, Text4)
  {
    forall i | 0 <= i < |Text0| ensures Text0[i] !in Text4 {
    }
  }

  lemma Disjoint05()
    ensures Disjoint(Text0, Text5)
  {
    forall i | 0 <= i < |Text0| ensures Text0[i] !in Text5 {
    }
  }

  lemma Disjoint12()
    ensures Disjoint(Text1, Text2)
  {
    forall i | 0 <= i < |Text1| ensures Text1[i] !in Text2 {
    }
  }

  lemma Disjoint13()
    ensures Disjoint(Text1, Text3)
  {
    forall i | 0 <= i < |Text1| ensures Text1[i] !in Text3 {
    }
  }

  lemma Disjoint14()
    ensures Disjoint(Text1, Text4)
  {
    forall i | 0 <= i < |Text1| ensures Text1[i] !in Text4 {
    }
  }

  lemma Disjoint15()
    ensures Disjoint(Text1, Text5)
  {
    forall i | 0 <= i < |Text1| ensures Text1[i] !in Text5 {
    }
  }

  lemma Disjoint23()
    ensures Disjoint(Text2, Text3)
  {
    forall i | 0 <= i < |Text2| ensures Text2[i] !in Text3 {
    }
  }

  lemma Disjoint24()
    ensures Disjoint(Text2, Text4)
  {
    forall i | 0 <= i < |Text2| ensures Text2[i] !in Text4 {
    }
  }

  lemma Disjoint25()
    ensures Disjoint(Text2, Text5)
  {
    forall i | 0 <= i < |Text2| ensures Text2[i] !in Text5 {
    }
  }

  lemma Disjoint34()
    ensures Disjoint(Text3, Text4)
  {
    forall i | 0 <= i < |Text3| ensures Text3[i] !in Text4 {
    }
  }

  lemma Disjoint35()
    ensures Disjoint(Text3, Text5)
  {
    forall i | 0 <= i < |Text3| ensures Text3[i] !in Text5 {
    }
  }

  lemma Disjoint45()
    ensures Disjoint(Text4, Text5)
  {
    forall i | 0 <= i < |Text4| ensures Text4[i] !in Text5 {
    }
  }

  lemma PieceDisjoint(i: nat, j: nat)
    requires i < j < 6
    ensures Disjoint(Piece(i), Piece(j))
  {
    if (i, j) == (0, 1) { Disjoint01(); }
    else if (i, j) == (0, 2) { Disjoint02(); }
    else if (i, j) == (0, 3) { Disjoint03(); }
    else if (i, j) == (0, 4) { Disjoint04(); }
    else if (i, j) == (0, 5) { Disjoint05(); }
    else if (i, j) == (1, 2) { Disjoint12(); }
    else if (i, j) == (1, 3) { Disjoint13(); }
    else if (i, j) == (1, 4) { Disjoint14(); }
    else if (i, j) == (1, 5) { Disjoint15(); }
    else if (i, j) == (2, 3) { Disjoint23(); }
    else if (i, j) == (2, 4) { Disjoint24(); }
    else if (i, j) == (2, 5) { Disjoint25(); }
    else if (i, j) == (3, 4) { Disjoint34(); }
    else if (i, j) == (3, 5) { Disjoint35(); }
    else if (i, j) == (4, 5) { Disjoint45(); }
  }

  /** The first k + 1 pieces have no symbol in common with a later piece j. */
  lemma {:induction false} PrefixDisjoint(k: nat, j: nat)
    requires k < j < 6
    ensures Disjoint(Prefix(k + 1), Piece(j))
  {
    PieceDisjoint(k, j);
    if k > 0 {
      PrefixDisjoint(k - 1, j);
    }
    DisjointConcat(Prefix(k), Piece(k), Piece(j));
  }

  lemma {:induction false} PrefixDistinct(k: nat)
    requires k <= 6
    ensures Distinct(Prefix(k))
  {
    if k > 0 {
      PrefixDistinct(k - 1);
      PieceDistinct(k - 1);
      if k > 1 {
        PrefixDisjoint(k - 2, k - 1);
      }
      DistinctConcat(Prefix(k - 1), Piece(k - 1));
    }
  }

  /** The alphabet has 66 symbols and no symbol occurs twice. */
  lemma TextDistinct()
    ensures |Text| == Base
    ensures Distinct(Text)
  {
    PrefixDistinct(6);
    assert Prefix(1) == Text0;
    assert Prefix(6) == Text;
  }

  /**
   * Python's str.index: the position of the first occurrence of c in s;
   * None where str.index raises ValueError.
   */
  function IndexOf(s: string, c: char): (r: Option<nat>)
    ensures r.Some? ==> r.value < |s| && s[r.value] == c
  {
    if s == [] then None
    else if s[0] == c then Some(0)
    else
      match IndexOf(s[1..], c)
      case None => None
      case Some(k) => Some(k + 1)
  }

  /** str.index raises exactly when c does not occur in s. */
  lemma {:induction false} IndexOfNone(s: string, c: char)
    ensures IndexOf(s, c).None? <==> c !in s
  {
    if s != [] && s[0] != c {
      IndexOfNone(s[1..], c);
      assert s == [s[0]] + s[1..];
    }
  }

  /** str.index finds the first occurrence: nothing before it is c. */
  lemma {:induction false} IndexOfFirst(s: string, c: char)
    requires IndexOf(s, c).Some?
    ensures forall j | 0 <= j < IndexOf(s, c).value :: s[j] != c
  {
    if s[0] != c {
      IndexOfFirst(s[1..], c);
    }
  }

  /** Looking a symbol up in the alphabet gives back its digit value. */
  lemma IndexOfText(d: nat)
    requires d < Base
    ensures IndexOf(Text, Text[d]) == Some(d)
  {
    TextDistinct();
    IndexOfNone(Text, Text[d]);
  }

  /** c is a symbol of the alphabet: str.index finds it. */
  predicate InAlphabet(c: char)
  {
    IndexOf(Text, c).Some?
  }

  lemma InAlphabetIff(c: char)
    ensures InAlphabet(c) <==> c in Text
  {
    IndexOfNone(Text, c);
  }

  function Pow(b: nat, e: nat): (r: nat)
  {
    if e == 0 then 1 else b * Pow(b, e - 1)
  }

  /**
   * The digits the encoder's while loop appends for n, least significant
   * first; empty for 0, where the loop does nothing.
   */
  function Digits(n: nat): (r: string)
    ensures r == [] <==> n == 0
  {
    if n == 0 then [] else [Text[n % Base]] + Digits(n / Base)
  }

  /** number_to_text: 0 is the first symbol alone, others their digits. */
  function Encode(n: nat): (r: string)
    ensures r != []
  {
    if n == 0 then [Text[0]] else Digits(n)
  }

  /**
   * text_to_number, following its loop over the positions of s: the sum of
   * digit(s[i]) * Base^i, or None as soon as a character is not in the
   * alphabet (where str.index raises).
   */
  function Decode(s: string): (r: Option<nat>)
  {
    if s == [] then Some(0)
    else
      match Decode(s[..|s| - 1])
      case None => None
      case Some(v) =>
        match IndexOf(Text, s[|s| - 1])
        case None => None
        case Some(d) => Some(v + Weight(d, |s| - 1))
  }

  /** What digit d at position e adds to the value: d * Base^e. */
  function Weight(d: nat, e: nat): (r: nat)
  {
    d * Pow(Base, e)
  }

  /** A digit one position higher weighs Base times as much. */
  lemma WeightShift(e: nat, k: nat)
    ensures Weight(e, k + 1) == Base * Weight(e, k)
  {
    calc {
      Weight(e, k + 1);
      e * (Base * Pow(Base, k));
      Base * (e * Pow(Base, k));
    }
  }

  lemma DecodeSingle(c: char)
    ensures Decode([c]) == if InAlphabet(c) then Some(IndexOf(Text, c).value) else None
  {
    assert [c][..0] == [] && [c][0] == c;
    assert Pow(Base, 0) == 1;
  }

  /** Decoding a string with one more symbol at the end: one more loop turn. */
  lemma {:induction false} DecodeSnoc(s: string, c: char)
    ensures Decode(s + [c]) ==
      if Decode(s).Some? && InAlphabet(c) then Some(Decode(s).value + Weight(IndexOf(Text, c).value, |s|))
      else None
  {
    var u := s + [c];
    assert u != [];
    assert u[..|u| - 1] == s && u[|u| - 1] == c && |u| - 1 == |s|;
    var ds, dc := Decode(s), IndexOf(Text, c);
    if ds.Some? && dc.Some? {
      assert Decode(u) == Some(ds.value + Weight(dc.value, |s|));
    } else {
      assert Decode(u) == None;
    }
  }

  /** Decoding a string with one more symbol in front, as a base-Base numeral. */
  lemma {:induction false} DecodeCons(c: char, t: string)
    ensures Decode([c] + t) ==
      if InAlphabet(c) && Decode(t).Some? then Some(IndexOf(Text, c).value + Base * Decode(t).value)
      else None
  {
    if t == [] {
      assert [c] + t == [c];
      DecodeSingle(c);
    } else {
      var t', last := t[..|t| - 1], t[|t| - 1];
      var u := [c] + t';
      assert t == t' + [last];
      assert [c] + t == u + [last] && |u| == |t'| + 1;
      DecodeCons(c, t');
      DecodeSnoc(u, last);
      DecodeSnoc(t', last);
      if InAlphabet(c) && Decode(t').Some? && InAlphabet(last) {
        var dc, v', dl := IndexOf(Text, c).value, Decode(t').value, IndexOf(Text, last).value;
        WeightShift(dl, |t'|);
      }
    }
  }

  /** text_to_number raises exactly when some character is outside the alphabet. */
  lemma {:induction false} DecodeFails(s: string)
    ensures Decode(s).None? <==> exists i :: 0 <= i < |s| && !InAlphabet(s[i])
  {
    if s != [] {
      var p := s[..|s| - 1];
      DecodeFails(p);
      if exists i :: 0 <= i < |p| && !InAlphabet(p[i]) {
        var i :| 0 <= i < |p| && !InAlphabet(p[i]);
        assert s[i] == p[i];
      }
      if exists i :: 0 <= i < |s| && !InAlphabet(s[i]) {
        var i :| 0 <= i < |s| && !InAlphabet(s[i]);
        if i < |p| { assert p[i] == s[i]; }
      }
    }
  }

  /** The empty string decodes to 0. */
  lemma DecodeEmpty()
    ensures Decode([]) == Some(0)
  {
  }

  /** A trailing zero digit (a most-significant 0) does not change the value. */
  lemma DecodeTrailingZero(s: string)
    ensures Decode(s + [Text[0]]) == Decode(s)
  {
    var u := s + [Text[0]];
    assert u[..|u| - 1] == s;
    IndexOfText(0);
  }

  lemma {:induction false} DecodeDigits(n: nat)
    ensures Decode(Digits(n)) == Some(n)
  {
    if n > 0 {
      var d, m := n % Base, n / Base;
      assert n == d + Base * m;
      assert Digits(n) == [Text[d]] + Digits(m);
      DecodeDigits(m);
      DecodeDigitStep(d, m, Digits(m));
    }
  }

  /** A digit symbol in front of a code of m gives d + Base * m. */
  lemma DecodeDigitStep(d: nat, m: nat, rest: string)
    requires d < Base && Decode(rest) == Some(m)
    ensures Decode([Text[d]] + rest) == Some(d + Base * m)
  {
    IndexOfText(d);
    DecodeCons(Text[d], rest);
  }

  /** The codec round trip: text_to_number(number_to_text(n)) == n. */
  lemma DecodeEncode(n: nat)
    ensures Decode(Encode(n)) == Some(n)
  {
    if n == 0 {
      DecodeTrailingZero([]);
    } else {
      DecodeDigits(n);
    }
  }

  lemma {:induction false} DigitsShape(n: nat)
    ensures forall i | 0 <= i < |Digits(n)| :: InAlphabet(Digits(n)[i])
    ensures n > 0 ==> Digits(n) != [] && Digits(n)[|Digits(n)| - 1] != Text[0]
  {
    if n > 0 {
      DigitsShape(n / Base);
      IndexOfText(n % Base);
      var s := Digits(n);
      assert s == [Text[n % Base]] + Digits(n / Base);
      if n / Base == 0 {
        assert n % Base == n;
        IndexOfText(0);
        assert Text[n] != Text[0];
      }
    }
  }

  /**
   * The shape of number_to_text's output: never empty, 0 is the first symbol,
   * every symbol in the alphabet, and no trailing first symbol for n > 0.
   */
  lemma EncodeShape(n: nat)
    ensures Encode(n) != []
    ensures Encode(0) == [Text[0]]
    ensures forall i | 0 <= i < |Encode(n)| :: InAlphabet(Encode(n)[i])
    ensures n > 0 ==> Encode(n)[|Encode(n)| - 1] != Text[0]
  {
    DigitsShape(n);
  }

  /** Distinct numbers get distinct codes. */
  lemma EncodeInjective(a: nat, b: nat)
    ensures Encode(a) == Encode(b) <==> a == b
  {
    DecodeEncode(a);
    DecodeEncode(b);
  }

  /** A code as number_to_text writes it: alphabet symbols with no trailing first symbol. */
  predicate Canonical(s: string)
  {
    s != [] && (forall i | 0 <= i < |s| :: InAlphabet(s[i])) &&
    (s == [Text[0]] || s[|s| - 1] != Text[0])
  }

  lemma {:induction false} DecodePositive(s: string)
    requires s != [] && (forall i | 0 <= i < |s| :: InAlphabet(s[i])) && s[|s| - 1] != Text[0]
    ensures Decode(s).Some? && Decode(s).value > 0
  {
    var p, c := s[..|s| - 1], s[|s| - 1];
    assert s == p + [c];
    assert forall i | 0 <= i < |p| :: p[i] == s[i];
    DecodeFails(p);
    DecodeSnoc(p, c);
    var d := IndexOf(Text, c).value;
    assert d != 0;
    PowPositive(|p|);
    MulPositive(d, Pow(Base, |p|));
  }

  /** The last digit and the rest of d + Base * v, for a digit d. */
  lemma DigitSplit(d: nat, v: nat)
    requires d < Base
    ensures (d + Base * v) % Base == d && (d + Base * v) / Base == v
  {
  }

  lemma MulPositive(a: nat, b: nat)
    requires a > 0 && b > 0
    ensures a * b > 0
  {
  }

  lemma {:induction false} PowPositive(e: nat)
    ensures Pow(Base, e) > 0
  {
    if e > 0 { PowPositive(e - 1); }
  }

  /** The digits of d + Base * v, for a digit d: d's symbol, then v's digits. */
  lemma DigitsCons(d: nat, v: nat)
    requires d < Base && d + Base * v > 0
    ensures Digits(d + Base * v) == [Text[d]] + Digits(v)
  {
    DigitSplit(d, v);
  }

  /** Dropping the first symbol of a canonical code of two or more symbols leaves a canonical code of a positive number. */
  lemma CanonicalTail(s: string)
    requires Canonical(s) && |s| >= 2
    ensures Canonical(s[1..])
    ensures forall i | 0 <= i < |s[1..]| :: InAlphabet(s[1..][i])
    ensures s[1..][|s[1..]| - 1] != Text[0]
  {
    var t := s[1..];
    assert forall i | 0 <= i < |t| :: t[i] == s[i + 1];
    assert t[|t| - 1] == s[|s| - 1];
    assert s != [Text[0]];
  }

  /** A one-symbol canonical code is the encoding of its digit value. */
  lemma EncodeDecodeSingle(c: char)
    requires InAlphabet(c)
    ensures Decode([c]).Some? && Encode(Decode([c]).value) == [c]
  {
    DecodeSingle(c);
    var d := IndexOf(Text, c).value;
    if d != 0 {
      DigitsCons(d, 0);
    }
  }

  /** Every canonical code is the encoding of the number it decodes to. */
  lemma {:induction false} EncodeDecode(s: string)
    requires Canonical(s)
    ensures Decode(s).Some? && Encode(Decode(s).value) == s
  {
    if |s| == 1 {
      assert s == [s[0]];
      EncodeDecodeSingle(s[0]);
    } else {
      CanonicalTail(s);
      DecodePositive(s[1..]);
      EncodeDecode(s[1..]);
      var n := EncodeConsStep(s, Decode(s[1..]).value);
    }
  }

  /** A digit symbol in front of the code of a positive v is the code of d + Base * v. */
  lemma EncodeConsStep(s: string, v: nat) returns (n: nat)
    requires |s| >= 2 && InAlphabet(s[0]) && Decode(s[1..]) == Some(v) && v > 0 && Encode(v) == s[1..]
    ensures n == IndexOf(Text, s[0]).value + Base * v
    ensures Decode(s) == Some(n) && Encode(n) == s
  {
    var c, t := s[0], s[1..];
    var d := IndexOf(Text, c).value;
    n := d + Base * v;
    DigitsCons(d, v);
    assert Encode(n) == [c] + Encode(v);
    assert s == [c] + t;
    DecodeCons(c, t);
  }

  /** One turn of number_to_text's loop moves the lowest digit into the text. */
  lemma DigitsStep(text: string, n: nat)
    requires n != 0
    ensures text + Digits(n) == (text + [Text[n % Base]]) + Digits(n / Base)
  {
    var x, rest := Text[n % Base], Digits(n / Base);
    assert Digits(n) == [x] + rest;
    AppendAssoc(text, [x], rest);
  }

  lemma AppendAssoc(a: string, b: string, c: string)
    ensures (a + b) + c == a + (b + c)
  {
  }

  /** number_to_text. */
  method NumberToText(number0: nat) returns (text: string)
    ensures text == Encode(number0)
  {
    text := "";
    var number: nat := number0;
    if number == 0 {
      text := text + [Text[0]];
    }
    while number != 0
      invariant text + Digits(number) == Encode(number0)
    {
      DigitsStep(text, number);
      text := text + [Text[number % Base]];
      number := number / Base;
    }
  }

  /** text_to_number; None stands for the ValueError of str.index. */
  method TextToNumber(tekst: string) returns (r: Option<nat>)
    ensures r == Decode(tekst)
  {
    var number := 0;
    for i := 0 to |tekst|
      invariant Decode(tekst[..i]) == Some(number)
    {
      var digit := IndexOf(Text, tekst[i]);
      if digit.None? {
        DecodeFails(tekst);
        return None;
      }
      assert tekst[..i + 1][..i] == tekst[..i];
      number := number + digit.value * Pow(Base, i);
    }
    assert tekst[..|tekst|] == tekst;
    r := Some(number);
  }
}
