/** Python's order on strings: character by character, a proper prefix first. */
module Text {
  import opened Sorting

  predicate TextLe(a: string, b: string) {
    a == [] || (b != [] && (a[0] < b[0] || (a[0] == b[0] && TextLe(a[1..], b[1..]))))
  }

  /** The strict order. */
  predicate TextBefore(a: string, b: string) {
    TextLe(a, b) && a != b
  }

  lemma {:induction false} TextLeTotal(a: string, b: string)
    ensures TextLe(a, b) || TextLe(b, a)
  {
    if a != [] && b != [] && a[0] == b[0] {
      TextLeTotal(a[1..], b[1..]);
    }
  }

  lemma {:induction false} TextLeAntisymmetric(a: string, b: string)
    requires TextLe(a, b) && TextLe(b, a)
    ensures a == b
  {
    if a != [] && b != [] {
      TextLeAntisymmetric(a[1..], b[1..]);
      assert a == [a[0]] + a[1..] && b == [b[0]] + b[1..];
    }
  }

  lemma TextNeverBothBefore(a: string, b: string)
    ensures !(TextBefore(a, b) && TextBefore(b, a))
  {
    if TextLe(a, b) && TextLe(b, a) {
      TextLeAntisymmetric(a, b);
    }
  }

  lemma {:induction false} TextLeTransitive(a: string, b: string, c: string)
    requires TextLe(a, b) && TextLe(b, c)
    ensures TextLe(a, c)
  {
    if a != [] && a[0] == b[0] && b[0] == c[0] {
      TextLeTransitive(a[1..], b[1..], c[1..]);
    }
  }

  lemma TextLeIsTotalOrder()
    ensures TotalOrder(TextLe)
  {
    forall x, y ensures TextLe(x, y) || TextLe(y, x) { TextLeTotal(x, y); }
    forall x, y | TextLe(x, y) && TextLe(y, x) ensures x == y { TextLeAntisymmetric(x, y); }
    forall x, y, z | TextLe(x, y) && TextLe(y, z) ensures TextLe(x, z) { TextLeTransitive(x, y, z); }
  }

  /** The tuple order on two strings: the first component decides unless it is equal. */
  predicate PairLe(a: string, b: string, c: string, d: string) {
    if a != c then TextLe(a, c) else TextLe(b, d)
  }

  lemma PairLeTransitive(a1: string, a2: string, b1: string, b2: string, c1: string, c2: string)
    requires PairLe(a1, a2, b1, b2) && PairLe(b1, b2, c1, c2)
    ensures PairLe(a1, a2, c1, c2)
  {
    TextLeIsTotalOrder();
    if a1 == b1 && b1 == c1 {
      TextLeTransitive(a2, b2, c2);
    } else {
      assert TextLe(a1, b1) && TextLe(b1, c1);
    }
  }
}
