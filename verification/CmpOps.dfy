// Comparison operators of the intermediate code, on single words and on 64-bit values split in two.
module CmpOps {
  import opened Words

  // ORDER IR
  datatype CmpOp = LT | GE | LE | GT | ULT | UGE | ULE | UGT | EQ | NE

  // A 64-bit value in two words.
  datatype Pair = Pair(hi: u32, lo: u32)

  function UnsignedPair(p: Pair): int { p.hi * TWO32 + p.lo }
  function SignedPair(p: Pair): int {
    var u := UnsignedPair(p);
    if u < TWO31 * TWO32 then u else u - TWO32 * TWO32
  }

  predicate Less(signed: bool, a: Pair, b: Pair) {
    if signed then SignedPair(a) < SignedPair(b) else UnsignedPair(a) < UnsignedPair(b)
  }

  predicate Holds64(op: CmpOp, a: Pair, b: Pair) {
    match op
    case LT => SignedPair(a) < SignedPair(b)
    case GE => SignedPair(a) >= SignedPair(b)
    case LE => SignedPair(a) <= SignedPair(b)
    case GT => SignedPair(a) > SignedPair(b)
    case ULT => UnsignedPair(a) < UnsignedPair(b)
    case UGE => UnsignedPair(a) >= UnsignedPair(b)
    case ULE => UnsignedPair(a) <= UnsignedPair(b)
    case UGT => UnsignedPair(a) > UnsignedPair(b)
    case EQ => UnsignedPair(a) == UnsignedPair(b)
    case NE => UnsignedPair(a) != UnsignedPair(b)
  }

  predicate IsSigned(op: CmpOp) { op in {LT, GE, LE, GT} }

  // The high words decide unless they are equal; the low words are always unsigned.
  lemma SplitLess(a: Pair, b: Pair)
    ensures UnsignedPair(a) < UnsignedPair(b) <==> a.hi < b.hi || (a.hi == b.hi && a.lo < b.lo)
    ensures SignedPair(a) < SignedPair(b) <==> Signed(a.hi) < Signed(b.hi) || (a.hi == b.hi && a.lo < b.lo)
    ensures UnsignedPair(a) == UnsignedPair(b) <==> a == b
    ensures SignedPair(a) == SignedPair(b) <==> a == b
  {
  }
}
