/** Exclusive or of 16-bit registers, kept apart from everything that uses it. */
module Xor16 {
  function Xor(a: bv16, b: bv16): bv16 {
    a ^ b
  }

  lemma XorSelf(a: bv16)
    ensures Xor(a, a) == 0
  {
  }

  lemma XorAssoc(a: bv16, b: bv16, c: bv16)
    ensures Xor(Xor(a, b), c) == Xor(a, Xor(b, c))
  {
  }

  lemma XorComm(a: bv16, b: bv16)
    ensures Xor(a, b) == Xor(b, a)
  {
  }

  lemma XorWithZero(x: bv16)
    ensures Xor(0, x) == x
  {
  }

  lemma XorTwice(a: bv16, b: bv16)
    ensures Xor(Xor(a, b), b) == a
  {
    hide Xor;
    XorAssoc(a, b, b);
    XorSelf(b);
    XorComm(a, 0);
    XorWithZero(a);
  }

  lemma XorZero(a: bv16, b: bv16)
    ensures Xor(a, b) == 0 <==> a == b
  {
    hide Xor;
    XorSelf(a);
    XorTwice(a, b);
    XorWithZero(b);
  }

  /** A value moves from one side of an equation to the other. */
  lemma XorMove(c: bv16, e: bv16, o: bv16)
    ensures Xor(c, e) == o <==> c == Xor(e, o)
  {
    hide Xor;
    XorTwice(c, e);
    XorTwice(o, e);
    XorComm(o, e);
  }

  lemma Regroup(c: bv16, d: bv16, a: bv16, b: bv16)
    ensures Xor(Xor(c, a), Xor(d, b)) == Xor(Xor(c, d), Xor(a, b))
  {
    hide Xor;
    XorAssoc(c, a, Xor(d, b));
    XorAssoc(a, d, b);
    XorAssoc(d, a, b);
    XorAssoc(c, d, Xor(a, b));
    XorComm(a, d);
  }
}
