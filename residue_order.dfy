/** Residue identity and the order in which the panel lists and processes residues
    (`PyBmwPanel._residue_sort_key` and the `sorted(...)` call of `_populate_table`). */
module ResidueOrder {

  import opened Sorting

  /** A residue as the panel identifies it: (object name, chain id, residue-id string). */
  datatype ResidueKey = ResidueKey(model: string, chain: string, resi: string)

  /** The tuple `_residue_sort_key` returns: (model, chain, integer of the digits, the letters). */
  datatype SortKey = SortKey(model: string, chain: string, number: nat, letters: string)

  predicate IsDigit(c: char) { '0' <= c <= '9' }

  predicate IsAlpha(c: char) { 'A' <= c <= 'Z' || 'a' <= c <= 'z' }

  /** The characters of `s` that satisfy `p`, in order (Python's `''.join(filter(p, s))`). */
  function Keep(s: string, p: char -> bool): (r: string)
    ensures forall i :: 0 <= i < |r| ==> p(r[i])
  {
    if s == [] then [] else (if p(s[0]) then [s[0]] else []) + Keep(s[1..], p)
  }

  /** `Keep` keeps exactly the characters satisfying `p`, and no more of them than `s` has. */
  lemma {:induction false} KeepFilters(s: string, p: char -> bool)
    ensures |Keep(s, p)| <= |s|
    ensures forall c :: c in Keep(s, p) <==> c in s && p(c)
  {
    if s != [] {
      KeepFilters(s[1..], p);
      assert s == [s[0]] + s[1..];
    }
  }

  /** Filtering a concatenation filters each part: the kept characters stay in their order. */
  lemma {:induction false} KeepAppend(a: string, b: string, p: char -> bool)
    ensures Keep(a + b, p) == Keep(a, p) + Keep(b, p)
  {
    if a == [] {
      assert a + b == b;
    } else {
      var head := if p(a[0]) then [a[0]] else [];
      calc {
        Keep(a + b, p);
        { assert (a + b)[0] == a[0] && (a + b)[1..] == a[1..] + b; }
        head + Keep(a[1..] + b, p);
        { KeepAppend(a[1..], b, p); }
        head + (Keep(a[1..], p) + Keep(b, p));
        (head + Keep(a[1..], p)) + Keep(b, p);
      }
    }
  }

  /** A string whose every character satisfies `p` is kept whole. */
  lemma {:induction false} KeepAll(s: string, p: char -> bool)
    requires forall i :: 0 <= i < |s| ==> p(s[i])
    ensures Keep(s, p) == s
  {
    if s != [] {
      KeepAll(s[1..], p);
      assert s == [s[0]] + s[1..];
    }
  }

  /** Python's `int(d)` on a string of decimal digits: zero exactly when every digit is '0'. */
  function Decimal(d: string): (n: nat)
    requires forall i :: 0 <= i < |d| ==> IsDigit(d[i])
    ensures n == 0 <==> forall i :: 0 <= i < |d| ==> d[i] == '0'
  {
    if d == [] then 0
    else
      var init := d[..|d| - 1];
      assert IsDigit(d[|d| - 1]);
      assert forall i :: 0 <= i < |init| ==> init[i] == d[i];
      10 * Decimal(init) + ((d[|d| - 1] as int) - ('0' as int))
  }

  /** `_residue_sort_key`: the digit characters read as one integer (0 when there are none)
      and the letter characters kept as a string; every other character is dropped. */
  function KeyOf(k: ResidueKey): (r: SortKey)
    ensures r.model == k.model && r.chain == k.chain
    ensures forall i :: 0 <= i < |r.letters| ==> IsAlpha(r.letters[i])
    ensures r.number == 0 <==> forall i :: 0 <= i < |k.resi| && IsDigit(k.resi[i]) ==> k.resi[i] == '0'
  {
    var digits := Keep(k.resi, IsDigit);
    KeepFilters(k.resi, IsDigit);
    assert (forall i :: 0 <= i < |digits| ==> digits[i] == '0')
       <==> (forall i :: 0 <= i < |k.resi| && IsDigit(k.resi[i]) ==> k.resi[i] == '0') by {
      if forall i :: 0 <= i < |digits| ==> digits[i] == '0' {
        forall i | 0 <= i < |k.resi| && IsDigit(k.resi[i]) ensures k.resi[i] == '0' {
          assert k.resi[i] in digits;
        }
      }
      if forall i :: 0 <= i < |k.resi| && IsDigit(k.resi[i]) ==> k.resi[i] == '0' {
        forall i | 0 <= i < |digits| ensures digits[i] == '0' {
          assert digits[i] in k.resi;
        }
      }
    }
    SortKey(k.model, k.chain, if digits == [] then 0 else Decimal(digits), Keep(k.resi, IsAlpha))
  }

  /** A character that is neither a digit nor a letter does not affect the key, wherever it
      stands in the residue id. */
  lemma KeyIgnoresOtherCharacters(m: string, c: string, a: string, x: char, b: string)
    requires !IsDigit(x) && !IsAlpha(x)
    ensures KeyOf(ResidueKey(m, c, a + [x] + b)) == KeyOf(ResidueKey(m, c, a + b))
  {
    assert a + [x] + b == (a + [x]) + b;
    assert Keep([x], IsDigit) == [] && Keep([x], IsAlpha) == [] by {
      assert [x][1..] == [];
    }
    KeepAppend(a + [x], b, IsDigit);
    KeepAppend(a, [x], IsDigit);
    KeepAppend(a, b, IsDigit);
    assert Keep(a + [x] + b, IsDigit) == Keep(a + b, IsDigit);
    KeepAppend(a + [x], b, IsAlpha);
    KeepAppend(a, [x], IsAlpha);
    KeepAppend(a, b, IsAlpha);
    assert Keep(a + [x] + b, IsAlpha) == Keep(a + b, IsAlpha);
  }

  /** Python's `<` on `str`: lexicographic by code point, a proper prefix first. */
  predicate StrLt(a: string, b: string)
  {
    if a == [] then b != []
    else if b == [] then false
    else a[0] < b[0] || (a[0] == b[0] && StrLt(a[1..], b[1..]))
  }

  /** Python's `<` on the key tuple: component by component. */
  predicate KeyLt(x: SortKey, y: SortKey)
  {
    || StrLt(x.model, y.model)
    || (x.model == y.model && StrLt(x.chain, y.chain))
    || (x.model == y.model && x.chain == y.chain && x.number < y.number)
    || (x.model == y.model && x.chain == y.chain && x.number == y.number && StrLt(x.letters, y.letters))
  }

  /** The order of the model's staged list: the source's key first; residues whose keys tie
      (Python leaves them in set-iteration order) are ordered by their residue-id string. */
  predicate Before(a: ResidueKey, b: ResidueKey)
  {
    KeyLt(KeyOf(a), KeyOf(b)) || (KeyOf(a) == KeyOf(b) && StrLt(a.resi, b.resi))
  }

  // ---------------------------------------------------------------------------
  // String and key order are strict total orders

  lemma {:induction false} StrLtIrreflexive(a: string)
    ensures !StrLt(a, a)
  {
    if a != [] { StrLtIrreflexive(a[1..]); }
  }

  lemma {:induction false} StrLtTransitive(a: string, b: string, c: string)
    requires StrLt(a, b) && StrLt(b, c)
    ensures StrLt(a, c)
  {
    if a != [] && b != [] && c != [] && a[0] == b[0] && b[0] == c[0] {
      StrLtTransitive(a[1..], b[1..], c[1..]);
    }
  }

  lemma {:induction false} StrLtTotal(a: string, b: string)
    ensures a == b || StrLt(a, b) || StrLt(b, a)
  {
    if a != [] && b != [] && a[0] == b[0] {
      StrLtTotal(a[1..], b[1..]);
      if a[1..] == b[1..] {
        assert a == [a[0]] + a[1..] && b == [b[0]] + b[1..];
      }
    }
  }

  lemma StrLtAsymmetric(a: string, b: string)
    requires StrLt(a, b)
    ensures !StrLt(b, a)
  {
    if StrLt(b, a) {
      StrLtTransitive(a, b, a);
      StrLtIrreflexive(a);
    }
  }

  lemma KeyLtIrreflexive(x: SortKey)
    ensures !KeyLt(x, x)
  {
    StrLtIrreflexive(x.model);
    StrLtIrreflexive(x.chain);
    StrLtIrreflexive(x.letters);
  }

  lemma KeyLtTransitive(x: SortKey, y: SortKey, z: SortKey)
    requires KeyLt(x, y) && KeyLt(y, z)
    ensures KeyLt(x, z)
  {
    if StrLt(x.model, y.model) && StrLt(y.model, z.model) { StrLtTransitive(x.model, y.model, z.model); }
    if StrLt(x.chain, y.chain) && StrLt(y.chain, z.chain) { StrLtTransitive(x.chain, y.chain, z.chain); }
    if StrLt(x.letters, y.letters) && StrLt(y.letters, z.letters) { StrLtTransitive(x.letters, y.letters, z.letters); }
  }

  lemma KeyLtTotal(x: SortKey, y: SortKey)
    ensures x == y || KeyLt(x, y) || KeyLt(y, x)
  {
    StrLtTotal(x.model, y.model);
    StrLtTotal(x.chain, y.chain);
    StrLtTotal(x.letters, y.letters);
  }

  lemma KeyLtAsymmetric(x: SortKey, y: SortKey)
    requires KeyLt(x, y)
    ensures !KeyLt(y, x)
  {
    if KeyLt(y, x) {
      KeyLtTransitive(x, y, x);
      KeyLtIrreflexive(x);
    }
  }

  lemma BeforeIrreflexive(a: ResidueKey)
    ensures !Before(a, a)
  {
    KeyLtIrreflexive(KeyOf(a));
    StrLtIrreflexive(a.resi);
  }

  lemma BeforeTransitive(a: ResidueKey, b: ResidueKey, c: ResidueKey)
    requires Before(a, b) && Before(b, c)
    ensures Before(a, c)
  {
    var ka, kb, kc := KeyOf(a), KeyOf(b), KeyOf(c);
    if KeyLt(ka, kb) && KeyLt(kb, kc) {
      KeyLtTransitive(ka, kb, kc);
    } else if ka == kb && kb == kc {
      StrLtTransitive(a.resi, b.resi, c.resi);
    }
  }

  /** Two distinct residues are always ordered one way or the other: equal keys mean equal
      model and chain, so the residue-id strings differ. */
  lemma BeforeTotal(a: ResidueKey, b: ResidueKey)
    ensures a == b || Before(a, b) || Before(b, a)
  {
    KeyLtTotal(KeyOf(a), KeyOf(b));
    StrLtTotal(a.resi, b.resi);
  }

  lemma BeforeAsymmetric(a: ResidueKey, b: ResidueKey)
    requires Before(a, b)
    ensures !Before(b, a)
  {
    if Before(b, a) {
      BeforeTransitive(a, b, a);
      BeforeIrreflexive(a);
    }
  }

  lemma BeforeIsStrictTotalOrder()
    ensures StrictTotalOrder(Before)
  {
    forall a ensures !Before(a, a) { BeforeIrreflexive(a); }
    forall a, b, c | Before(a, b) && Before(b, c) ensures Before(a, c) { BeforeTransitive(a, b, c); }
    forall a, b ensures a == b || Before(a, b) || Before(b, a) { BeforeTotal(a, b); }
  }

  // ---------------------------------------------------------------------------
  // The sorted residue list

  /** The staged list as a function of the staged set: each staged residue listed once. */
  ghost function SortedList(s: set<ResidueKey>): (r: seq<ResidueKey>)
    ensures forall x :: x in r <==> x in s
    ensures |r| == |s|
  {
    SortedBy(s, Before)
  }

  /** The staged list is in ascending residue order. */
  lemma SortedListAscending(s: set<ResidueKey>)
    ensures ListsInOrder(SortedList(s), s, Before)
  {
    BeforeIsStrictTotalOrder();
    SortedByInOrder(s, Before);
  }

  /** Staging one residue fewer drops exactly its position from the list. */
  lemma SortedListRemove(s: set<ResidueKey>, i: nat)
    requires i < |SortedList(s)|
    ensures SortedList(s - {SortedList(s)[i]}) == SortedList(s)[..i] + SortedList(s)[i + 1..]
  {
    BeforeIsStrictTotalOrder();
    SortedByRemove(s, Before, i);
  }

  /** `sorted(list(self.residues_to_mutate), key=self._residue_sort_key)`, as insertion of the
      set's residues one at a time into an ascending list. */
  method SortResidues(s: set<ResidueKey>) returns (r: seq<ResidueKey>)
    ensures r == SortedList(s)
  {
    BeforeIsStrictTotalOrder();
    r := [];
    var rest := s;
    while rest != {}
      invariant rest <= s
      invariant Ascending(r, Before)
      invariant forall x :: x in r <==> x in s && x !in rest
      decreases |rest|
    {
      var x :| x in rest;
      var i := 0;
      while i < |r| && Before(r[i], x)
        invariant 0 <= i <= |r|
        invariant forall j :: 0 <= j < i ==> Before(r[j], x)
      {
        i := i + 1;
      }
      InsertAscending(r, i, x, Before);
      r := r[..i] + [x] + r[i..];
      rest := rest - {x};
    }
    SortedByUnique(r, s, Before);
  }

  // ---------------------------------------------------------------------------
  // What the order promises

  /** Listed residues never go against the source's key: a later residue's key is never
      smaller than an earlier one's. */
  lemma SortedListFollowsKey(s: set<ResidueKey>, i: nat, j: nat)
    requires i < j < |SortedList(s)|
    ensures !KeyLt(KeyOf(SortedList(s)[j]), KeyOf(SortedList(s)[i]))
  {
    var r := SortedList(s);
    SortedListAscending(s);
    assert Before(r[i], r[j]);
    if KeyLt(KeyOf(r[i]), KeyOf(r[j])) {
      KeyLtAsymmetric(KeyOf(r[i]), KeyOf(r[j]));
    } else {
      KeyLtIrreflexive(KeyOf(r[j]));
    }
  }

  /** A residue with a smaller key is listed (and so processed) before one with a larger key. */
  lemma SmallerKeyListedFirst(s: set<ResidueKey>, a: ResidueKey, b: ResidueKey)
    requires a in s && b in s
    requires KeyLt(KeyOf(a), KeyOf(b))
    ensures exists i, j :: 0 <= i < j < |SortedList(s)| && SortedList(s)[i] == a && SortedList(s)[j] == b
  {
    var r := SortedList(s);
    var i :| 0 <= i < |r| && r[i] == a;
    var j :| 0 <= j < |r| && r[j] == b;
    KeyLtIrreflexive(KeyOf(a));
    if j < i {
      SortedListFollowsKey(s, j, i);
    }
    assert i != j;
  }

  lemma DecimalOfTen()
    ensures Decimal("10") == 10
  {
    assert "10"[..1] == "1";
    assert "1"[..0] == "";
  }

  lemma KeepOfNineA()
    ensures Keep("9A", IsDigit) == "9" && Keep("9A", IsAlpha) == "A"
  {
    assert "9A"[1..] == "A";
    assert "A"[1..] == "";
  }

  lemma KeepOfTen()
    ensures Keep("10", IsDigit) == "10" && Keep("10", IsAlpha) == ""
  {
    assert "10"[1..] == "0";
    assert "0"[1..] == "";
  }

  /** The numeric part is compared as an integer: residue "9A" of chain A precedes residue "10". */
  lemma NineABeforeTen(s: set<ResidueKey>)
    requires ResidueKey("m", "A", "9A") in s && ResidueKey("m", "A", "10") in s
    ensures exists i, j ::
      && 0 <= i < j < |SortedList(s)|
      && SortedList(s)[i] == ResidueKey("m", "A", "9A")
      && SortedList(s)[j] == ResidueKey("m", "A", "10")
  {
    KeepOfNineA();
    KeepOfTen();
    DecimalOfTen();
    assert Decimal("9") == 9 by { assert "9"[..0] == ""; }
    assert KeyOf(ResidueKey("m", "A", "9A")) == SortKey("m", "A", 9, "A");
    assert KeyOf(ResidueKey("m", "A", "10")) == SortKey("m", "A", 10, "");
    SmallerKeyListedFirst(s, ResidueKey("m", "A", "9A"), ResidueKey("m", "A", "10"));
  }

  /** Characters other than ASCII digits and letters do not reach the key: a negative residue
      number such as "-10" gets the same key as "10" and so sorts after "9". */
  lemma MinusSignIgnored()
    ensures KeyOf(ResidueKey("m", "A", "-10")) == KeyOf(ResidueKey("m", "A", "10"))
    ensures KeyLt(KeyOf(ResidueKey("m", "A", "9")), KeyOf(ResidueKey("m", "A", "-10")))
  {
    KeyOfMinusTen();
    KeyOfTen();
    KeyOfNine();
  }

  lemma KeyOfMinusTen()
    ensures KeyOf(ResidueKey("m", "A", "-10")) == SortKey("m", "A", 10, "")
  {
    KeepOfMinusTen();
    DecimalOfTen();
  }

  lemma KeyOfTen()
    ensures KeyOf(ResidueKey("m", "A", "10")) == SortKey("m", "A", 10, "")
  {
    KeepOfTen();
    DecimalOfTen();
  }

  lemma KeyOfNine()
    ensures KeyOf(ResidueKey("m", "A", "9")) == SortKey("m", "A", 9, "")
  {
    KeepOfNine();
    assert Decimal("9") == 9 by { assert "9"[..0] == ""; }
  }

  lemma KeepOfMinusTen()
    ensures Keep("-10", IsDigit) == "10" && Keep("-10", IsAlpha) == ""
  {
    assert "-10"[1..] == "10";
    KeepOfTen();
  }

  lemma KeepOfNine()
    ensures Keep("9", IsDigit) == "9" && Keep("9", IsAlpha) == ""
  {
    assert "9"[1..] == "";
  }
}
