/** The conversions between typed values and the 256-bit words that sets and maps store. */
module Conversion {
  import opened Words

  /** A `bytes32`, identified with the number its 32 bytes spell. */
  type Word = Uint256

  datatype SolType = Bytes32 | UintWord | Address | Other(name: string)

  predicate Supported(ty: SolType) {
    !ty.Other?
  }

  /** How many values the type has; its values are the numbers below. */
  function Limit(ty: SolType): nat {
    if ty.Address? then TWO_160 else TWO_256
  }

  /** The emitted conversion to a word; the generator throws on any other type. */
  function ToBytes32(ty: SolType, value: Word): Outcome<Word> {
    match ty
    case Bytes32 => Ok(value)
    case UintWord => Ok(value)
    case Address => Ok(value % TWO_160)
    case Other(_) => Reverted
  }

  /** The emitted conversion from a word: an address keeps the low 160 bits. */
  function FromBytes32(ty: SolType, word: Word): Outcome<Word> {
    match ty
    case Bytes32 => Ok(word)
    case UintWord => Ok(word)
    case Address => Ok(word % TWO_160)
    case Other(_) => Reverted
  }

  function Encode(ty: SolType, value: Word): Word
    requires Supported(ty)
  {
    ToBytes32(ty, value).value
  }

  function Decode(ty: SolType, word: Word): Word
    requires Supported(ty)
  {
    FromBytes32(ty, word).value
  }

  /** An address has 160 bits; a number and a `bytes32` have as many as a word. */
  lemma LimitIsWidth(ty: SolType)
    requires Supported(ty)
    ensures Limit(ty) == Pow2(if ty == Address then 160 else 256)
  {
    PowersOfTwo();
    WidthsOfPacked();
  }

  /** Both conversions keep the low bits of their argument, as many as the type has. */
  lemma LowBitsKept(ty: SolType, word: Word)
    requires Supported(ty)
    ensures var limit := Pow2(if ty == Address then 160 else 256);
            Decode(ty, word) == Encode(ty, word) == word % limit
  {
    LimitIsWidth(ty);
  }

  /** A typed value survives the trip through a word, and its word is within the type's range. */
  lemma RoundTrip(ty: SolType, value: Word)
    requires value < Limit(ty)
    ensures ToBytes32(ty, value).Ok? <==> ty == Bytes32 || ty == UintWord || ty == Address
    ensures FromBytes32(ty, value).Ok? <==> ty == Bytes32 || ty == UintWord || ty == Address
    ensures Supported(ty) ==> Encode(ty, value) == value && Decode(ty, Encode(ty, value)) == value
  {
  }

  /** A word survives the trip through a typed value exactly when it is within the type's range. */
  lemma WordRoundTrip(ty: SolType, word: Word)
    requires Supported(ty)
    ensures Decode(ty, word) < Limit(ty)
    ensures Encode(ty, Decode(ty, word)) == word <==> word < Limit(ty)
  {
  }

  /** Distinct typed values have distinct words. */
  lemma EncodeInjective(ty: SolType, v: Word, w: Word)
    requires Supported(ty) && v < Limit(ty) && w < Limit(ty)
    ensures Encode(ty, v) == Encode(ty, w) <==> v == w
  {
    RoundTrip(ty, v);
    RoundTrip(ty, w);
  }
}
