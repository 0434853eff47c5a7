/** The paged list of fields (lib/csv-parser/csv.hpp, CSVFieldList). */
module FieldLists {

  /** The pages one after another. */
  function Flat<T>(pages: seq<seq<T>>): seq<T> {
    if pages == [] then [] else Flat(pages[..|pages| - 1]) + pages[|pages| - 1]
  }

  lemma FlatLast<T>(pages: seq<seq<T>>, page: seq<T>)
    ensures Flat(pages + [page]) == Flat(pages) + page
  {
    assert (pages + [page])[..|pages|] == pages;
  }

  predicate FullPages<T>(pages: seq<seq<T>>, size: nat) {
    forall i :: 0 <= i < |pages| ==> |pages[i]| == size
  }

  lemma {:induction false} FlatLength<T>(pages: seq<seq<T>>, size: nat)
    requires FullPages(pages, size)
    ensures |Flat(pages)| == |pages| * size
  {
    if pages != [] {
      FlatLength(pages[..|pages| - 1], size);
      assert |pages| * size == (|pages| - 1) * size + size;
    }
  }

  /** Where an element stands, by division with remainder. */
  lemma {:induction false} FlatAt<T>(pages: seq<seq<T>>, size: nat, page: nat, at: nat)
    requires FullPages(pages, size) && page < |pages| && at < size
    ensures page * size + at < |pages| * size == |Flat(pages)| && Flat(pages)[page * size + at] == pages[page][at]
  {
    var n := |pages| - 1;
    FlatLength(pages, size);
    FlatLength(pages[..n], size);
    assert |pages| * size == n * size + size;
    if page < n {
      FlatAt(pages[..n], size, page, at);
    }
  }

  /** A list's representation is the list and its pages. */
  ghost predicate ListAndPages<T>(list: object, pages: seq<array<T>>, repr: set<object>) {
    forall o :: o in repr ==> o == list || exists i :: 0 <= i < |pages| && pages[i] == o
  }

  lemma OneMorePage<T>(list: object, pages: seq<array<T>>, repr: set<object>, page: array<T>)
    requires ListAndPages(list, pages, repr)
    ensures ListAndPages(list, pages + [page], repr + {page})
  {
    assert forall i :: 0 <= i < |pages| ==> (pages + [page])[i] == pages[i];
    assert (pages + [page])[|pages|] == page;
  }

  /** The list keeps full pages and a last one that is being filled; what is
      already stored never moves. */
  class FieldList<T(0)> {
    const capacity: nat
    var buffers: seq<array<T>>
    var used: nat
    ghost var full: seq<seq<T>>
    ghost var Repr: set<object>

    ghost predicate Valid()
      reads this, Repr
    {
      && this in Repr && capacity > 0 && |buffers| == |full| + 1 && used <= capacity
      && (forall i :: 0 <= i < |buffers| ==> buffers[i] in Repr && buffers[i].Length == capacity)
      && (forall i, j :: 0 <= i < j < |buffers| ==> buffers[i] != buffers[j])
      && (forall i :: 0 <= i < |full| ==> buffers[i][..] == full[i])
      && ListAndPages(this, buffers, Repr)
    }

    ghost function Last(): seq<T>
      requires Valid()
      reads this, Repr
    {
      buffers[|full|][..used]
    }

    ghost function Contents(): seq<T>
      requires Valid()
      reads this, Repr
    {
      Flat(full) + Last()
    }

    constructor (capacity: nat)
      requires capacity > 0
      ensures Valid() && fresh(Repr) && Contents() == []
    {
      this.capacity := capacity;
      var page := new T[capacity];
      buffers := [page];
      used := 0;
      full := [];
      Repr := {this, page};
      new;
      assert buffers[0] == page;
    }

    method EmplaceBack(x: T)
      requires Valid()
      modifies Repr
      ensures Valid() && fresh(Repr - old(Repr))
      ensures Contents() == old(Contents()) + [x]
    {
      hide ListAndPages;
      if used == capacity { Allocate(); }
      ghost var before := Last();
      var page := buffers[|buffers| - 1];
      page[used] := x;
      used := used + 1;
      assert Last() == before + [x];
    }

    method Allocate()
      requires Valid() && used == capacity
      modifies this
      ensures Valid() && fresh(Repr - old(Repr))
      ensures Contents() == old(Contents()) && used == 0
      ensures fresh(buffers[|buffers| - 1])
    {
      hide ListAndPages;
      var page := new T[capacity];
      FlatLast(full, buffers[|full|][..]);
      full := full + [buffers[|full|][..]];
      OneMorePage(this, buffers, Repr, page);
      buffers := buffers + [page];
      used := 0;
      Repr := Repr + {page};
    }

    method Size() returns (n: nat)
      requires Valid()
      ensures n == |Contents()|
    {
      FlatLength(full, capacity);
      n := used + (|buffers| - 1) * capacity;
    }

    method Get(n: nat) returns (x: T)
      requires Valid() && n < |Contents()|
      ensures x == Contents()[n]
    {
      FlatLength(full, capacity);
      var page := n / capacity;
      var at := if page < 1 then n else n % capacity;
      PageInside(n, capacity, |full|, used);
      if page < |full| { FlatAt(full, capacity, page, at); }
      x := buffers[page][at];
    }
  }

  lemma {:induction false} CancelFactor(a: nat, b: nat, size: nat)
    requires a * size < b * size
    ensures a < b
  {
    if a > 0 && b > 0 {
      assert (a - 1) * size == a * size - size && (b - 1) * size == b * size - size;
      CancelFactor(a - 1, b - 1, size);
    }
  }

  lemma PageInside(n: nat, size: nat, pages: nat, used: nat)
    requires size > 0 && used <= size && n < pages * size + used
    ensures var page, at := n / size, n % size;
      && n == page * size + at && at < size && page <= pages
      && (page < 1 ==> at == n) && (page == pages ==> at < used)
  {
    var page, at := n / size, n % size;
    assert n == page * size + at by { assert n == size * page + at; }
    assert (pages + 1) * size == pages * size + size;
    CancelFactor(page, pages + 1, size);
  }
}
