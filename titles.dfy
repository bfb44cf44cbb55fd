/** The order both sorters use on bid titles: std::string's operator<, a
    lexicographic comparison character by character in which a proper prefix
    comes first. */
module Titles {

  /** The length of the longest common prefix of a and b: the index of the
      first mismatch, or the length of the shorter one. */
  function CommonPrefix(a: string, b: string): (p: nat)
    ensures p <= |a| && p <= |b| && a[..p] == b[..p]
    ensures p < |a| && p < |b| ==> a[p] != b[p]
  {
    if |a| == 0 || |b| == 0 || a[0] != b[0] then 0
    else 1 + CommonPrefix(a[1..], b[1..])
  }

  /** Strict lexicographic order on titles, one character at a time. */
  predicate Less(a: string, b: string)
  {
    if |a| == 0 then |b| != 0
    else if |b| == 0 then false
    else if a[0] != b[0] then a[0] < b[0]
    else Less(a[1..], b[1..])
  }

  /** a comes first exactly when it is a proper prefix of b, or when its
      character at the first mismatch is the smaller one. */
  lemma {:induction false} LessAtFirstMismatch(a: string, b: string)
    ensures Less(a, b) <==> var p := CommonPrefix(a, b);
                            if p == |a| then p < |b| else p < |b| && a[p] < b[p]
  {
    if |a| != 0 && |b| != 0 && a[0] == b[0] {
      LessAtFirstMismatch(a[1..], b[1..]);
    }
  }

  lemma {:induction false} LessIrreflexive(a: string)
    ensures !Less(a, a)
  {
    if |a| != 0 {
      LessIrreflexive(a[1..]);
    }
  }

  lemma {:induction false} LessTransitive(a: string, b: string, c: string)
    requires Less(a, b) && Less(b, c)
    ensures Less(a, c)
  {
    if |a| != 0 && a[0] == b[0] && b[0] == c[0] {
      LessTransitive(a[1..], b[1..], c[1..]);
    }
  }

  /** Any two distinct titles are ordered one way or the other. */
  lemma {:induction false} LessConnected(a: string, b: string)
    ensures Less(a, b) || a == b || Less(b, a)
  {
    if |a| != 0 && |b| != 0 && a[0] == b[0] {
      LessConnected(a[1..], b[1..]);
      if a[1..] == b[1..] {
        assert a == [a[0]] + a[1..] && b == [b[0]] + b[1..];
      }
    }
  }

  lemma LessAsymmetric(a: string, b: string)
    requires Less(a, b)
    ensures !Less(b, a)
  {
    if Less(b, a) {
      LessTransitive(a, b, a);
      LessIrreflexive(a);
    }
  }

  /** a < b <= c gives a < c. */
  lemma LessThenAtMost(a: string, b: string, c: string)
    requires Less(a, b) && !Less(c, b)
    ensures Less(a, c)
  {
    LessConnected(b, c);
    if Less(b, c) {
      LessTransitive(a, b, c);
    }
  }

  /** a <= b <= c gives a <= c, where "x <= y" is !Less(y, x). */
  lemma AtMostTransitive(a: string, b: string, c: string)
    requires !Less(b, a) && !Less(c, b)
    ensures !Less(c, a)
  {
    if Less(c, a) {
      LessThenAtMost(c, a, b);
    }
  }

  /** Neither title below the other means the titles are equal. */
  lemma AtMostAntisymmetric(a: string, b: string)
    requires !Less(a, b) && !Less(b, a)
    ensures a == b
  {
    LessConnected(a, b);
  }
}
