/** The accumulating byte comparison, with xor and or on unbounded bit strings. */
module Compare {

  function Xor(a: nat, b: nat): nat {
    if a == 0 && b == 0 then 0 else (if a % 2 == b % 2 then 0 else 1) + 2 * Xor(a / 2, b / 2)
  }

  function Or(a: nat, b: nat): nat {
    if a == 0 && b == 0 then 0 else (if a % 2 == 0 && b % 2 == 0 then 0 else 1) + 2 * Or(a / 2, b / 2)
  }

  lemma {:induction false} XorZero(a: nat, b: nat)
    ensures Xor(a, b) == 0 <==> a == b
  {
    if a != 0 || b != 0 { XorZero(a / 2, b / 2); }
  }

  lemma {:induction false} OrZero(a: nat, b: nat)
    ensures Or(a, b) == 0 <==> a == 0 && b == 0
  {
    if a != 0 || b != 0 { OrZero(a / 2, b / 2); }
  }

  /** `get(i).copied().unwrap_or(0)`. */
  function ByteAt(s: seq<nat>, i: nat): nat {
    if i < |s| then s[i] else 0
  }

  /** The comparison visits every position of the longer input, whatever it has seen, and still decides equality. */
  method ConstantTimeEq(left: seq<nat>, right: seq<nat>) returns (equal: bool)
    ensures equal <==> left == right
  {
    hide Xor, Or;
    var maxLen := if |left| < |right| then |right| else |left|;
    var diff := Xor(|left|, |right|);
    XorZero(|left|, |right|);
    for i := 0 to maxLen
      invariant diff == 0 <==> |left| == |right| && forall j :: 0 <= j < i ==> ByteAt(left, j) == ByteAt(right, j)
    {
      var x := Xor(ByteAt(left, i), ByteAt(right, i));
      XorZero(ByteAt(left, i), ByteAt(right, i));
      OrZero(diff, x);
      diff := Or(diff, x);
    }
    equal := diff == 0;
    if equal {
      assert forall j :: 0 <= j < |left| ==> ByteAt(left, j) == left[j] && ByteAt(right, j) == right[j];
    }
  }
}
