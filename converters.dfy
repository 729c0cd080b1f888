/** The three JPA attribute converters of the `converter` package. */
module Converters {
  import opened Wrappers
  import opened Model

  // ---- BooleanConverter ------------------------------------------------------

  /** Encodes a nullable boolean as the column text "1" or "0"; null stays null. */
  function EncodeBoolean(value: Option<bool>): (column: Option<string>)
    ensures DecodeBoolean(column) == value
    ensures column.Some? <==> value.Some?
    ensures column.Some? ==> column.value == "0" || column.value == "1"
  {
    match value
    case None => None
    case Some(b) => Some(if b then "1" else "0")
  }

  /** Decodes column text: "0" is false, any other text is true, null stays null. */
  function DecodeBoolean(column: Option<string>): (value: Option<bool>)
    ensures value.Some? <==> column.Some?
  {
    match column
    case None => None
    case Some(s) => Some(s != "0")
  }

  /** Only the text "0" decodes to false; every other text, "1" among them, decodes to true. */
  lemma DecodeBooleanText(s: string)
    ensures DecodeBoolean(Some(s)) == Some(false) <==> s == "0"
    ensures DecodeBoolean(Some(s)) == Some(true) <==> s != "0"
  {
  }

  /** Decoding followed by encoding gives the text back only for the two canonical texts. */
  lemma BooleanCanonicalText(s: string)
    ensures EncodeBoolean(DecodeBoolean(Some(s))) == Some(s) <==> s == "0" || s == "1"
  {
  }

  // ---- ASCII case folding, as String.equalsIgnoreCase does for these names ----

  function UpperAscii(c: char): char {
    if 'a' <= c <= 'z' then (c as int - 32) as char else c
  }

  /** Same length and the same letters up to ASCII case. */
  predicate EqualsIgnoreCase(a: string, b: string) {
    |a| == |b| && forall i :: 0 <= i < |a| ==> UpperAscii(a[i]) == UpperAscii(b[i])
  }

  /** Case-insensitive equality is an equivalence. */
  lemma EqualsIgnoreCaseEquivalence(a: string, b: string, c: string)
    ensures EqualsIgnoreCase(a, a)
    ensures EqualsIgnoreCase(a, b) ==> EqualsIgnoreCase(b, a)
    ensures EqualsIgnoreCase(a, b) && EqualsIgnoreCase(b, c) ==> EqualsIgnoreCase(a, c)
  {
  }

  // ---- OrderTypeToStringConverter --------------------------------------------

  /** The enum constant's name. */
  function EncodeOrderType(t: OrderType): (column: string)
    ensures DecodeOrderType(column) == t
  {
    match t
    case BUY => "BUY"
    case SELL => assert !EqualsIgnoreCase("SELL", "BUY") by { assert |"SELL"| == 4; } "SELL"
  }

  /** "BUY" in any case is BUY; every other text is SELL. */
  function DecodeOrderType(column: string): OrderType {
    if EqualsIgnoreCase(column, "BUY") then BUY else SELL
  }

  /** The spellings of "BUY" that differ only in letter case. */
  predicate IsBuySpelling(s: string) {
    |s| == 3 && s[0] in "bB" && s[1] in "uU" && s[2] in "yY"
  }

  /** Decoding yields BUY exactly for the case variants of "BUY", and SELL for all other text. */
  lemma DecodeOrderTypeSpellings(s: string)
    ensures DecodeOrderType(s) == BUY <==> IsBuySpelling(s)
    ensures !IsBuySpelling(s) ==> DecodeOrderType(s) == SELL
  {
    if IsBuySpelling(s) {
      assert UpperAscii(s[0]) == 'B' && UpperAscii(s[1]) == 'U' && UpperAscii(s[2]) == 'Y';
    } else if |s| == 3 {
      if !(s[0] in "bB") {
        assert UpperAscii(s[0]) != UpperAscii("BUY"[0]);
      } else if !(s[1] in "uU") {
        assert UpperAscii(s[1]) != UpperAscii("BUY"[1]);
      } else {
        assert UpperAscii(s[2]) != UpperAscii("BUY"[2]);
      }
    }
  }

  /** Distinct constants get distinct column texts. */
  lemma OrderTypeEncodingInjective(a: OrderType, b: OrderType)
    ensures EncodeOrderType(a) == EncodeOrderType(b) ==> a == b
  {
  }

  // ---- ExecutionTypeToStringConverter ----------------------------------------

  /** The enum constant's name. */
  function EncodeExecutionType(t: ExecutionType): (column: string)
    ensures DecodeExecutionType(column) == t
  {
    match t
    case OFFER => "OFFER"
    case ASK => assert !EqualsIgnoreCase("ASK", "OFFER") by { assert |"ASK"| == 3; } "ASK"
  }

  /** "OFFER" in any case is OFFER; every other text is ASK. */
  function DecodeExecutionType(column: string): ExecutionType {
    if EqualsIgnoreCase(column, "OFFER") then OFFER else ASK
  }

  /** The spellings of "OFFER" that differ only in letter case. */
  predicate IsOfferSpelling(s: string) {
    |s| == 5 && s[0] in "oO" && s[1] in "fF" && s[2] in "fF" && s[3] in "eE" && s[4] in "rR"
  }

  /** Decoding yields OFFER exactly for the case variants of "OFFER", and ASK for all other text. */
  lemma DecodeExecutionTypeSpellings(s: string)
    ensures DecodeExecutionType(s) == OFFER <==> IsOfferSpelling(s)
    ensures !IsOfferSpelling(s) ==> DecodeExecutionType(s) == ASK
  {
    if IsOfferSpelling(s) {
      assert UpperAscii(s[0]) == 'O' && UpperAscii(s[1]) == 'F' && UpperAscii(s[2]) == 'F';
      assert UpperAscii(s[3]) == 'E' && UpperAscii(s[4]) == 'R';
    } else if |s| == 5 {
      if !(s[0] in "oO") {
        assert UpperAscii(s[0]) != UpperAscii("OFFER"[0]);
      } else if !(s[1] in "fF") {
        assert UpperAscii(s[1]) != UpperAscii("OFFER"[1]);
      } else if !(s[2] in "fF") {
        assert UpperAscii(s[2]) != UpperAscii("OFFER"[2]);
      } else if !(s[3] in "eE") {
        assert UpperAscii(s[3]) != UpperAscii("OFFER"[3]);
      } else {
        assert UpperAscii(s[4]) != UpperAscii("OFFER"[4]);
      }
    }
  }

  /** Distinct constants get distinct column texts. */
  lemma ExecutionTypeEncodingInjective(a: ExecutionType, b: ExecutionType)
    ensures EncodeExecutionType(a) == EncodeExecutionType(b) ==> a == b
  {
  }
}
