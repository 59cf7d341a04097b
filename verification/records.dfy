/** The six record types (the headers under model/): their fields as the accessors expose
    them. CSV parsing is not part of this model. */
module Records {

  datatype Address = Address(id: int, city: string, street: string, building: string, kind: string)

  datatype Department = Department(id: int, name: string, addressId: int)

  datatype Employee = Employee(id: int, last: string, first: string, middle: string,
                               birthYear: int, deptId: int)
  {
    /** `GetFullName`: the three name parts joined by single spaces. */
    function FullName(): string {
      last + " " + first + " " + middle
    }
  }

  datatype Supplier = Supplier(id: int, name: string, city: string, phone: string, email: string)

  datatype Product = Product(id: int, name: string, category: string, unit: string,
                             defaultSupplierId: int)

  /** A purchase without its quantity and unit price. */
  datatype Purchase = Purchase(id: int, date: string, deptId: int, supplierId: int, productId: int)

  ghost predicate NoSpace(s: string) {
    forall i :: 0 <= i < |s| ==> s[i] != ' '
  }

  /** The index of the first space, or the length when there is none. */
  function SpaceIndex(s: string): nat {
    if |s| == 0 then 0 else if s[0] == ' ' then 0 else 1 + SpaceIndex(s[1..])
  }

  lemma {:induction false} SpaceIndexAfterWord(a: string, r: string)
    requires NoSpace(a)
    ensures SpaceIndex(a + " " + r) == |a|
  {
    if |a| > 0 {
      assert (a + " " + r)[1..] == a[1..] + " " + r;
      SpaceIndexAfterWord(a[1..], r);
    }
  }

  /** A space-free word followed by a space splits off uniquely. */
  lemma SplitAtSpace(a: string, r: string, a': string, r': string)
    requires NoSpace(a) && NoSpace(a')
    requires a + " " + r == a' + " " + r'
    ensures a == a' && r == r'
  {
    var s := a + " " + r;
    SpaceIndexAfterWord(a, r);
    SpaceIndexAfterWord(a', r');
    assert a == s[..|a|] == a';
    assert r == s[|a| + 1..] == r';
  }

  /** When the last and first names contain no spaces, the full name
      determines all three parts: the full-name index groups exactly the
      employees with the same name. */
  lemma FullNameInjective(e: Employee, f: Employee)
    requires NoSpace(e.last) && NoSpace(e.first) && NoSpace(f.last) && NoSpace(f.first)
    ensures e.FullName() == f.FullName() <==>
            (e.last, e.first, e.middle) == (f.last, f.first, f.middle)
  {
    if e.FullName() == f.FullName() {
      assert e.FullName() == e.last + " " + (e.first + " " + e.middle);
      assert f.FullName() == f.last + " " + (f.first + " " + f.middle);
      SplitAtSpace(e.last, e.first + " " + e.middle, f.last, f.first + " " + f.middle);
      SplitAtSpace(e.first, e.middle, f.first, f.middle);
    }
  }
}
