/** The table of function symbols of a loaded image: filtered in place, sorted, and searched by address. */
module ElfSymbols {
  import opened Basics
  import opened Bits

  /** An entry of the symbol table. */
  datatype Symbol = Symbol(name: nat, value: nat, size: nat, info: nat, shndx: nat)

  const SHN_UNDEF: nat := 0
  const SHN_LORESERVE: nat := 0xff00
  const STT_FUNC: nat := 2

  /** How symbols are read: `swab` exchanges bytes if the image calls for it, and on ARM and MIPS the lowest
      bit of an address only marks the instruction set. */
  datatype Format = Format(swab: Symbol -> Symbol, marked: bool) {
    /** A defined function. */
    predicate Wanted(raw: Symbol) {
      var s := swab(raw);
      s.shndx != SHN_UNDEF && s.shndx < SHN_LORESERVE && s.info % 16 == STT_FUNC
    }

    function Address(s: Symbol): Symbol {
      if marked then s.(value := s.value - s.value % 2) else s
    }

    /** What the table has for a symbol of the file: it is swapped exactly once. */
    function Entry(raw: Symbol): Symbol { Address(swab(raw)) }
  }

  /** A symbol is wanted if its section is an ordinary one and the low four bits of its information say that it is a
      function. Marked addresses are cleared in their lowest bit and nothing else. */
  lemma WantedIff(f: Format, raw: Symbol)
    ensures f.Wanted(raw) <==> 0 < f.swab(raw).shndx < 0xff00 && And(f.swab(raw).info, 0xf) == 2
    ensures f.Entry(raw)
         == if f.marked then f.swab(raw).(value := f.swab(raw).value - And(f.swab(raw).value, 1)) else f.swab(raw)
  {
    assert Pow2(4) == 16 && Pow2(1) == 2;
    HighAndLow(f.swab(raw).info, 4);
    HighAndLow(f.swab(raw).value, 1);
  }

  /** The entries of the wanted symbols. */
  ghost function Kept(f: Format, file: seq<Symbol>): multiset<Symbol> {
    if file == [] then multiset{}
    else Kept(f, file[..|file| - 1]) + KeptOne(f, file[|file| - 1])
  }

  ghost function KeptOne(f: Format, raw: Symbol): multiset<Symbol> {
    if f.Wanted(raw) then multiset{f.Entry(raw)} else multiset{}
  }

  lemma {:induction false} KeptConcat(f: Format, x: seq<Symbol>, y: seq<Symbol>)
    ensures Kept(f, x + y) == Kept(f, x) + Kept(f, y)
    decreases |y|
  {
    if y == [] {
      assert x + y == x;
    } else {
      var n := |y| - 1;
      assert (x + y)[..|x + y| - 1] == x + y[..n];
      KeptConcat(f, x, y[..n]);
    }
  }

  /** The first of the symbols left goes. */
  lemma KeptHead(f: Format, raw: Symbol, rest: seq<Symbol>)
    ensures Kept(f, [raw] + rest) == KeptOne(f, raw) + Kept(f, rest)
  {
    KeptConcat(f, [raw], rest);
    assert [raw][..0] == [];
  }

  /** The last symbol takes the place of the first. */
  lemma KeptMoved(f: Format, first: Symbol, middle: seq<Symbol>, last: Symbol)
    ensures Kept(f, [first] + middle + [last]) == KeptOne(f, first) + Kept(f, [last] + middle)
  {
    var tail := middle + [last];
    KeptHead(f, first, tail);
    assert [first] + middle + [last] == [first] + tail;
    assert tail[..|tail| - 1] == middle;
    KeptHead(f, last, middle);
  }

  /** In terms of members. */
  lemma {:induction false} KeptMembers(f: Format, file: seq<Symbol>, s: Symbol)
    ensures s in Kept(f, file) <==> Has(f, file, s)
    decreases |file|
  {
    if file != [] {
      var n := |file| - 1;
      var front, last := file[..n], file[n];
      KeptMembers(f, front, s);
      assert file == front + [last];
      assert s in Kept(f, file) <==> s in Kept(f, front) || (f.Wanted(last) && f.Entry(last) == s);
      HasOneMore(f, front, last, s);
    }
  }

  lemma HasOneMore(f: Format, front: seq<Symbol>, last: Symbol, s: Symbol)
    ensures Has(f, front + [last], s) <==> Has(f, front, s) || (f.Wanted(last) && f.Entry(last) == s)
  {
    var file := front + [last];
    assert file[|front|] == last;
    if Has(f, front, s) {
      var k :| 0 <= k < |front| && f.Wanted(front[k]) && f.Entry(front[k]) == s;
      assert file[k] == front[k];
    }
  }

  /** An entry for one of the file's functions. */
  ghost predicate Has(f: Format, file: seq<Symbol>, s: Symbol) {
    exists k :: 0 <= k < |file| && f.Wanted(file[k]) && f.Entry(file[k]) == s
  }

  /** The first `i` symbols are done; from there to `n` they are as in the file. */
  ghost function InAll(f: Format, syms: seq<Symbol>, i: nat, n: nat): multiset<Symbol>
    requires i <= n <= |syms|
  {
    multiset(syms[..i]) + Kept(f, syms[i..n])
  }

  ghost predicate AsMuch(f: Format, syms: seq<Symbol>, i: nat, n: nat, syms': seq<Symbol>, i': nat, n': nat)
    requires i <= n <= |syms| && i' <= n' <= |syms'|
  {
    forall s {:trigger CountOf(f, syms', i', n', s)} :: CountOf(f, syms', i', n', s) == CountOf(f, syms, i, n, s)
  }

  ghost function CountOf(f: Format, syms: seq<Symbol>, i: nat, n: nat, s: Symbol): nat
    requires i <= n <= |syms|
  {
    InAll(f, syms, i, n)[s]
  }

  lemma AsMuchStill(f: Format, x: seq<Symbol>, i: nat, n: nat, y: seq<Symbol>, i1: nat, n1: nat, z: seq<Symbol>,
                    i2: nat, n2: nat)
    requires i <= n <= |x| && i1 <= n1 <= |y| && i2 <= n2 <= |z|
    requires AsMuch(f, x, i, n, y, i1, n1) && AsMuch(f, y, i1, n1, z, i2, n2)
    ensures AsMuch(f, x, i, n, z, i2, n2)
  {
    forall s
      ensures CountOf(f, z, i2, n2, s) == CountOf(f, x, i, n, s)
    {
      assert CountOf(f, y, i1, n1, s) == CountOf(f, x, i, n, s);
    }
  }

  lemma AllFiltered(f: Format, file: seq<Symbol>, syms: seq<Symbol>, n: nat)
    requires n <= |syms| && AsMuch(f, file, 0, |file|, syms, n, n)
    ensures multiset(syms[..n]) == Kept(f, file)
  {
    assert file[0..|file|] == file && file[..0] == [] && syms[n..n] == [];
    assert InAll(f, file, 0, |file|) == Kept(f, file);
    assert InAll(f, syms, n, n) == multiset(syms[..n]);
    forall s
      ensures multiset(syms[..n])[s] == Kept(f, file)[s]
    {
      assert CountOf(f, syms, n, n, s) == CountOf(f, file, 0, |file|, s);
    }
  }

  lemma FirstAndLast<T>(s: seq<T>, i: nat, n: nat)
    requires i < n - 1 < |s|
    ensures s[i..n] == [s[i]] + s[i + 1..n - 1] + [s[n - 1]]
  {
    assert s[i..n] == s[i..n - 1] + [s[n - 1]];
    assert s[i..n - 1] == [s[i]] + s[i + 1..n - 1];
  }

  lemma Rejected(f: Format, syms: seq<Symbol>, i: nat, n: nat, syms': seq<Symbol>)
    requires i < n <= |syms| == |syms'| && !f.Wanted(syms[i])
    requires syms'[..i] == syms[..i]
    requires i < n - 1 ==> syms'[i] == syms[n - 1] && syms'[i + 1..n - 1] == syms[i + 1..n - 1]
    ensures AsMuch(f, syms, i, n, syms', i, n - 1)
  {
    var raw := syms[i];
    if i < n - 1 {
      var middle, last := syms[i + 1..n - 1], syms[n - 1];
      FirstAndLast(syms, i, n);
      assert syms'[i..n - 1] == [last] + middle;
      KeptMoved(f, raw, middle, last);
    } else {
      assert syms[i..n] == [raw] + [];
      KeptHead(f, raw, []);
      assert syms'[i..n - 1] == [];
    }
  }

  lemma Accepted(f: Format, syms: seq<Symbol>, i: nat, n: nat, syms': seq<Symbol>)
    requires i < n <= |syms| && f.Wanted(syms[i]) && syms' == syms[i := f.Entry(syms[i])]
    ensures AsMuch(f, syms, i, n, syms', i + 1, n)
  {
    var rest, entry := syms[i + 1..n], f.Entry(syms[i]);
    assert syms[i..n] == [syms[i]] + rest;
    KeptHead(f, syms[i], rest);
    assert syms'[i + 1..n] == rest;
    assert syms'[..i + 1] == syms[..i] + [entry];
    Regroup(syms[..i], entry, Kept(f, rest));
  }

  lemma Regroup(done: seq<Symbol>, entry: Symbol, rest: multiset<Symbol>)
    ensures multiset(done + [entry]) + rest == multiset(done) + (multiset{entry} + rest)
  {
  }

  lemma FilteredOne(f: Format, syms: seq<Symbol>, i: nat, n: nat, syms': seq<Symbol>)
    requires i < n <= |syms|
    requires f.Wanted(syms[i]) ==> syms' == syms[i := f.Entry(syms[i])]
    requires !f.Wanted(syms[i]) ==> syms' == syms[i := if i < n - 1 then syms[n - 1] else f.swab(syms[i])]
    ensures if f.Wanted(syms[i]) then AsMuch(f, syms, i, n, syms', i + 1, n) else AsMuch(f, syms, i, n, syms', i, n - 1)
  {
    if f.Wanted(syms[i]) {
      Accepted(f, syms, i, n, syms');
    } else {
      Rejected(f, syms, i, n, syms');
    }
  }

  /** The loop of load_symbols: what is left of the array is exactly the wanted symbols, each as often as
      it was in the file. */
  method Filter(f: Format, syms: array<Symbol>) returns (nsyms: nat)
    modifies syms
    ensures nsyms <= syms.Length
    ensures multiset(syms[..nsyms]) == Kept(f, old(syms[..]))
  {
    nsyms := syms.Length;
    var i: nat := 0;
    while i < nsyms
      invariant i <= nsyms <= syms.Length
      invariant AsMuch(f, old(syms[..]), 0, syms.Length, syms[..], i, nsyms)
      decreases nsyms - i
    {
      ghost var before, i0, nsyms0 := syms[..], i, nsyms;
      i, nsyms := FilterOne(f, syms, i, nsyms);
      FilteredOne(f, before, i0, nsyms0, syms[..]);
      AsMuchStill(f, old(syms[..]), 0, syms.Length, before, i0, nsyms0, syms[..], i, nsyms);
    }
    AllFiltered(f, old(syms[..]), syms[..], nsyms);
    assert syms[..][..nsyms] == syms[..nsyms];
  }

  /** One pass through the loop's body. */
  method FilterOne(f: Format, syms: array<Symbol>, i: nat, nsyms: nat) returns (i': nat, nsyms': nat)
    requires i < nsyms <= syms.Length
    modifies syms
    ensures f.Wanted(old(syms[i])) ==>
              i' == i + 1 && nsyms' == nsyms && syms[..] == old(syms[..])[i := f.Entry(old(syms[i]))]
    ensures !f.Wanted(old(syms[i])) ==>
              i' == i && nsyms' == nsyms - 1
                && syms[..] == old(syms[..])[i := if i < nsyms' then old(syms[nsyms']) else f.swab(old(syms[i]))]
  {
    syms[i] := f.swab(syms[i]);
    if syms[i].shndx == SHN_UNDEF || syms[i].shndx >= SHN_LORESERVE || syms[i].info % 16 != STT_FUNC {
      i', nsyms' := i, nsyms - 1;
      if i < nsyms' {
        syms[i] := syms[nsyms'];
      }
    } else {
      if f.marked {
        syms[i] := syms[i].(value := syms[i].value - syms[i].value % 2);
      }
      i', nsyms' := i + 1, nsyms;
    }
  }

  /** symcmp */
  function SymCmp(x: Symbol, y: Symbol): int {
    if x.value < y.value then -1 else if x.value > y.value then 1 else 0
  }

  ghost predicate Sorted(table: seq<Symbol>) {
    forall i, j :: 0 <= i < j < |table| ==> SymCmp(table[i], table[j]) <= 0
  }

  /** In place of qsort of the C library: only what the contract says is used. */
  method Qsort(s: seq<Symbol>) returns (table: seq<Symbol>)
    ensures Sorted(table) && multiset(table) == multiset(s)
    decreases |s|
  {
    if s == [] {
      table := [];
    } else {
      var rest := Qsort(s[1..]);
      var i := 0;
      while i < |rest| && SymCmp(rest[i], s[0]) < 0
        invariant i <= |rest| && forall k :: 0 <= k < i ==> rest[k].value < s[0].value
      {
        i := i + 1;
      }
      var front, back := rest[..i], rest[i..];
      table := front + [s[0]] + back;
      assert rest == front + back;
      InsertedSorts(front, s[0], back);
      InsertedKeeps(front, s[0], back);
      assert s == [s[0]] + s[1..];
    }
  }

  lemma InsertedKeeps(front: seq<Symbol>, x: Symbol, back: seq<Symbol>)
    ensures multiset(front + [x] + back) == multiset{x} + multiset(front + back)
  {
  }

  lemma InsertedSorts(front: seq<Symbol>, x: Symbol, back: seq<Symbol>)
    requires Sorted(front + back)
    requires forall k :: 0 <= k < |front| ==> front[k].value < x.value
    requires back != [] ==> x.value <= back[0].value
    ensures Sorted(front + [x] + back)
  {
    var all := front + back;
    forall p, q | 0 <= p < q < |front|
      ensures front[p].value <= front[q].value
    {
      assert SymCmp(all[p], all[q]) <= 0;
    }
    forall p, q | 0 <= p < q < |back|
      ensures back[p].value <= back[q].value
    {
      assert SymCmp(all[|front| + p], all[|front| + q]) <= 0;
    }
  }

  /** load_symbols, from the symbols of the file on. */
  method LoadSymbols(f: Format, syms: array<Symbol>) returns (table: seq<Symbol>)
    modifies syms
    ensures Sorted(table) && multiset(table) == Kept(f, old(syms[..]))
  {
    var nsyms := Filter(f, syms);
    table := Qsort(syms[..nsyms]);
  }

  // ---------------------------------------------------------------- lookup

  /** The end of a symbol's range, as a word of addresses that wrap at `space`. */
  function End(space: nat, s: Symbol): (r: nat)
    requires s.value < space && s.size < space
    ensures r == s.value + s.size || r == s.value + s.size - space
  {
    if s.value + s.size < space then s.value + s.size else s.value + s.size - space
  }

  ghost predicate Words(space: nat, table: seq<Symbol>) {
    forall i :: 0 <= i < |table| ==> table[i].value < space && table[i].size < space
  }

  /** symfind */
  function SymFind(space: nat, key: nat, s: Symbol): (r: int)
    requires s.value < space && s.size < space
  {
    if key < s.value then -1 else if key >= End(space, s) then 1 else 0
  }

  /** The symbol's range has the address. */
  predicate Contains(s: Symbol, addr: nat) { s.value <= addr < s.value + s.size }

  /** The comparison takes exactly the addresses of the range, but none at all if the range reaches the end
      of the address space: its end is then a small number. */
  lemma FoundIfContained(space: nat, addr: nat, s: Symbol)
    requires s.value < space && s.size < space && addr < space
    ensures SymFind(space, addr, s) == 0 <==> Contains(s, addr) && s.value + s.size < space
  {
  }

  /** A later symbol does not end before an earlier one does. */
  ghost predicate Ascending(space: nat, x: Symbol, y: Symbol)
    requires x.value < space && x.size < space && y.value < space && y.size < space
  {
    End(space, x) <= x.value || End(space, x) <= End(space, y) || End(space, x) <= y.value
  }

  ghost predicate Searchable(space: nat, table: seq<Symbol>)
    requires Words(space, table)
  {
    forall i, j :: 0 <= i < j < |table| ==> Ascending(space, table[i], table[j])
  }

  /** What bsearch asks of a table: along it, the comparisons with the key do not increase. */
  ghost predicate Ordered(space: nat, key: nat, table: seq<Symbol>)
    requires Words(space, table)
  {
    forall i, j :: 0 <= i < j < |table| ==> SymFind(space, key, table[i]) >= SymFind(space, key, table[j])
  }

  /** A sorted table can be searched for all addresses exactly if no range ends inside an earlier one. */
  lemma SearchableIsOrdered(space: nat, table: seq<Symbol>)
    requires Words(space, table) && Sorted(table)
    ensures Searchable(space, table) <==> forall key: nat :: key < space ==> Ordered(space, key, table)
  {
    if Searchable(space, table) {
      forall key: nat | key < space
        ensures Ordered(space, key, table)
      {
        forall i, j | 0 <= i < j < |table|
          ensures SymFind(space, key, table[i]) >= SymFind(space, key, table[j])
        {
          assert Ascending(space, table[i], table[j]);
          assert SymCmp(table[i], table[j]) <= 0;
        }
      }
    }
    if !Searchable(space, table) {
      var i, j :| 0 <= i < j < |table| && !Ascending(space, table[i], table[j]);
      assert SymCmp(table[i], table[j]) <= 0;
      var key := End(space, table[i]) - 1;
      assert SymFind(space, key, table[i]) == 0 && SymFind(space, key, table[j]) == 1;
      assert !Ordered(space, key, table);
    }
  }

  /** The ranges share no address. */
  predicate Apart(x: Symbol, y: Symbol) { x.value + x.size <= y.value || y.value + y.size <= x.value }

  /** Non-empty ranges that do not touch the end of the address space nor each other can be searched. */
  lemma DisjointIsSearchable(space: nat, table: seq<Symbol>)
    requires Words(space, table) && Sorted(table)
    requires forall i :: 0 <= i < |table| ==> table[i].size > 0 && table[i].value + table[i].size < space
    requires forall i, j :: 0 <= i < j < |table| ==> table[i] == table[j] || Apart(table[i], table[j])
    ensures Searchable(space, table)
  {
    forall i, j | 0 <= i < j < |table|
      ensures Ascending(space, table[i], table[j])
    {
      assert SymCmp(table[i], table[j]) <= 0;
    }
  }

  /** In place of bsearch of the C library. */
  method Bsearch(space: nat, key: nat, table: seq<Symbol>) returns (r: Option<nat>)
    requires Words(space, table)
    ensures r.Some? ==> r.value < |table| && SymFind(space, key, table[r.value]) == 0
    ensures Ordered(space, key, table) && r.None? ==> forall k :: 0 <= k < |table| ==>
              SymFind(space, key, table[k]) != 0
  {
    var lo, hi := 0, |table|;
    while lo < hi
      invariant lo <= hi <= |table|
      invariant Ordered(space, key, table) ==> forall k :: (0 <= k < lo || hi <= k < |table|) ==>
                  SymFind(space, key, table[k]) != 0
      decreases hi - lo
    {
      var mid := lo + (hi - lo) / 2;
      var c := SymFind(space, key, table[mid]);
      if c < 0 {
        hi := mid;
      } else if c > 0 {
        lo := mid + 1;
      } else {
        return Some(mid);
      }
    }
    return None;
  }

  /** lookup_symbol: what is found has the address. In a searchable table nothing is missed, except symbols
      that reach the end of the address space. */
  method LookupSymbol(space: nat, table: seq<Symbol>, addr: nat) returns (r: Option<Symbol>)
    requires Words(space, table) && Sorted(table) && addr < space
    ensures r.Some? ==> r.value in table && Contains(r.value, addr)
    ensures Searchable(space, table) ==>
              (r.Some? <==> exists s :: s in table && Contains(s, addr) && s.value + s.size < space)
  {
    var i := Bsearch(space, addr, table);
    forall k | 0 <= k < |table|
      ensures (SymFind(space, addr, table[k]) == 0)
           <==> (Contains(table[k], addr) && table[k].value + table[k].size < space)
    {
      FoundIfContained(space, addr, table[k]);
    }
    SearchableIsOrdered(space, table);
    r := if i.Some? then Some(table[i.value]) else None;
  }

  ghost predicate Fits(space: nat, s: Symbol) { s.value < space && s.size < space }

  /** The file's functions have code, end before the end of the address space and, unless they are the
      same, share no address. */
  ghost predicate Separate(f: Format, space: nat, file: seq<Symbol>) {
    && (forall s :: Has(f, file, s) ==> s.size > 0 && s.value + s.size < space)
    && (forall x, y :: Has(f, file, x) && Has(f, file, y) ==> x == y || Apart(x, y))
  }

  /** From the file to the answer: a function of the file has the address exactly if one is found. */
  method FunctionAt(f: Format, space: nat, syms: array<Symbol>, addr: nat) returns (r: Option<Symbol>)
    requires addr < space && forall s :: Has(f, syms[..], s) ==> Fits(space, s)
    modifies syms
    ensures r.Some? ==> Has(f, old(syms[..]), r.value) && Contains(r.value, addr)
    ensures Separate(f, space, old(syms[..])) ==>
              (r.Some? <==> exists s :: Has(f, old(syms[..]), s) && Contains(s, addr))
  {
    ghost var file := syms[..];
    var table := LoadSymbols(f, syms);
    forall s
      ensures s in table <==> Has(f, file, s)
    {
      KeptMembers(f, file, s);
      assert s in table <==> s in multiset(table);
    }
    forall i | 0 <= i < |table|
      ensures Has(f, file, table[i])
    {
      assert table[i] in table;
    }
    r := LookupSymbol(space, table, addr);
    if Separate(f, space, file) {
      DisjointIsSearchable(space, table);
    }
  }
}
