/** Index keys. The source instantiates its indexes with `int` and
    `std::string` keys; both are folded into one key type whose order is
    `<` on integers and `std::string`'s lexicographic `operator<` on strings. */
module Keys {

  datatype Key = IntKey(i: int) | StrKey(s: string)

  /** Lexicographic order of `std::string`: the first differing character
      decides, and a proper prefix is smaller. */
  predicate StrLess(a: string, b: string)
    decreases |a|
  {
    if |b| == 0 then false
    else if |a| == 0 then true
    else if a[0] != b[0] then a[0] < b[0]
    else StrLess(a[1..], b[1..])
  }

  /** Strict order on keys: integers among themselves, strings among
      themselves; an integer key sorts before every string key (an index only
      ever holds keys of one kind). */
  predicate Less(a: Key, b: Key) {
    match (a, b)
    case (IntKey(x), IntKey(y)) => x < y
    case (StrKey(x), StrKey(y)) => StrLess(x, y)
    case (IntKey(_), StrKey(_)) => true
    case (StrKey(_), IntKey(_)) => false
  }

  /** `from <= k <= to` written with `<` only, as the source's comparisons do. */
  predicate InRange(k: Key, from: Key, to: Key) {
    !Less(k, from) && !Less(to, k)
  }

  lemma {:induction false} StrLessIrreflexive(a: string)
    ensures !StrLess(a, a)
    decreases |a|
  {
    if |a| > 0 {
      StrLessIrreflexive(a[1..]);
    }
  }

  lemma {:induction false} StrLessTransitive(a: string, b: string, c: string)
    requires StrLess(a, b) && StrLess(b, c)
    ensures StrLess(a, c)
    decreases |a|
  {
    if |a| > 0 && a[0] == b[0] && b[0] == c[0] {
      StrLessTransitive(a[1..], b[1..], c[1..]);
    }
  }

  lemma {:induction false} StrLessTotal(a: string, b: string)
    requires a != b
    ensures StrLess(a, b) || StrLess(b, a)
    decreases |a|
  {
    if |a| > 0 && |b| > 0 && a[0] == b[0] {
      assert a == [a[0]] + a[1..] && b == [b[0]] + b[1..];
      StrLessTotal(a[1..], b[1..]);
    }
  }

  lemma {:induction false} StrLessAsymmetric(a: string, b: string)
    requires StrLess(a, b)
    ensures !StrLess(b, a)
    decreases |a|
  {
    if |a| > 0 && a[0] == b[0] {
      StrLessAsymmetric(a[1..], b[1..]);
    }
  }

  lemma LessIrreflexive(a: Key)
    ensures !Less(a, a)
  {
    if a.StrKey? {
      StrLessIrreflexive(a.s);
    }
  }

  lemma LessTransitive(a: Key, b: Key, c: Key)
    requires Less(a, b) && Less(b, c)
    ensures Less(a, c)
  {
    if a.StrKey? && b.StrKey? && c.StrKey? {
      StrLessTransitive(a.s, b.s, c.s);
    }
  }

  /** Trichotomy: two keys are equal or one is below the other. */
  lemma LessTotal(a: Key, b: Key)
    ensures a == b || Less(a, b) || Less(b, a)
  {
    if a.StrKey? && b.StrKey? && a != b {
      StrLessTotal(a.s, b.s);
    }
  }

  lemma LessAsymmetric(a: Key, b: Key)
    requires Less(a, b)
    ensures !Less(b, a)
  {
    if a.StrKey? && b.StrKey? {
      StrLessAsymmetric(a.s, b.s);
    }
  }
}
