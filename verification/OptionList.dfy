/** The option list of a message: kept in ascending order of option number while
    options are added and removed. */
module OptionList {
  import opened CoapTypes
  import opened StableOrder

  function Number(o: CoapOption): int {
    o.number
  }

  ghost predicate Sorted(options: seq<CoapOption>) {
    SortedBy(Number, options)
  }

  function Insert(options: seq<CoapOption>, o: CoapOption): seq<CoapOption> {
    InsertBy(Number, options, o)
  }

  /** All options with number `name`, in order. */
  function Named(options: seq<CoapOption>, name: int): seq<CoapOption> {
    WithKey(Number, options, name)
  }

  predicate HasOption(options: seq<CoapOption>, name: int) {
    Named(options, name) != []
  }

  function RemoveNamed(options: seq<CoapOption>, name: int): seq<CoapOption> {
    if options == [] then []
    else if options[0].number == name then RemoveNamed(options[1..], name)
    else [options[0]] + RemoveNamed(options[1..], name)
  }

  function RemoveFirst(options: seq<CoapOption>, o: CoapOption): seq<CoapOption> {
    if options == [] then []
    else if options[0] == o then options[1..]
    else [options[0]] + RemoveFirst(options[1..], o)
  }

  /** Inserting at the end of the run of numbers not larger than `o.number`, which is
      where a binary search for the upper bound ends, is insertion in order. */
  lemma {:induction false} InsertAtUpperBound(options: seq<CoapOption>, o: CoapOption, u: nat)
    requires u <= |options|
    requires forall i :: 0 <= i < u ==> options[i].number <= o.number
    requires forall i :: u <= i < |options| ==> o.number < options[i].number
    ensures Insert(options, o) == options[..u] + [o] + options[u..]
  {
    if u > 0 {
      InsertAtUpperBound(options[1..], o, u - 1);
      assert options[..u] == [options[0]] + options[1..][..u - 1];
    }
  }

  lemma {:induction false} RemoveNamedConcat(a: seq<CoapOption>, b: seq<CoapOption>, name: int)
    ensures RemoveNamed(a + b, name) == RemoveNamed(a, name) + RemoveNamed(b, name)
  {
    if a == [] {
      assert a + b == b;
    } else {
      assert (a + b)[1..] == a[1..] + b;
      RemoveNamedConcat(a[1..], b, name);
    }
  }

  lemma {:induction false} RemoveFirstAt(options: seq<CoapOption>, o: CoapOption, i: nat)
    requires i <= |options|
    requires forall j :: 0 <= j < i ==> options[j] != o
    requires i < |options| ==> options[i] == o
    ensures RemoveFirst(options, o) == if i < |options| then options[..i] + options[i + 1..] else options
  {
    if i > 0 {
      RemoveFirstAt(options[1..], o, i - 1);
      assert i < |options| ==> options[..i] == [options[0]] + options[1..][..i - 1];
    }
  }

  /** The mutable option list inside a message. */
  class MessageOptions {
    var options: seq<CoapOption>

    constructor ()
      ensures options == []
    {
      options := [];
    }

    /** Binary search for the upper bound, then insertion in place. */
    method AddOption(o: CoapOption)
      requires Sorted(options)
      modifies this
      ensures options == Insert(old(options), o)
      ensures Sorted(options)
    {
      var lo, hi := 0, |options|;
      while lo < hi
        invariant 0 <= lo <= hi <= |options|
        invariant options == old(options)
        invariant forall i :: 0 <= i < lo ==> options[i].number <= o.number
        invariant forall i :: hi <= i < |options| ==> o.number < options[i].number
      {
        var mid := (lo + hi) / 2;
        assert forall i :: 0 <= i < mid ==> Number(options[i]) <= Number(options[mid]);
        assert forall i :: mid < i < |options| ==> Number(options[mid]) <= Number(options[i]);
        if o.number < options[mid].number {
          hi := mid;
        } else {
          lo := mid + 1;
        }
      }
      InsertAtUpperBound(options, o, lo);
      InsertKeepsSorted(Number, options, o);
      options := options[..lo] + [o] + options[lo..];
    }

    /** Removes every option with number `name`. */
    method RemoveOption(name: int)
      modifies this
      ensures options == RemoveNamed(old(options), name)
    {
      var kept: seq<CoapOption> := [];
      for i := 0 to |options|
        invariant options == old(options)
        invariant kept == RemoveNamed(options[..i], name)
      {
        RemoveNamedConcat(options[..i], [options[i]], name);
        assert options[..i + 1] == options[..i] + [options[i]];
        if options[i].number != name {
          kept := kept + [options[i]];
        }
      }
      assert options[..|options|] == options;
      options := kept;
    }

    /** Removes the first option equal to `o`, if there is one. */
    method RemoveOneOption(o: CoapOption)
      modifies this
      ensures options == RemoveFirst(old(options), o)
    {
      var i := 0;
      while i < |options| && options[i] != o
        invariant 0 <= i <= |options|
        invariant options == old(options)
        invariant forall j :: 0 <= j < i ==> options[j] != o
      {
        i := i + 1;
      }
      RemoveFirstAt(options, o, i);
      if i < |options| {
        options := options[..i] + options[i + 1..];
      }
    }

    /** The first option with number `name`. */
    method FindOption(name: int) returns (r: Option<CoapOption>)
      ensures r.None? <==> !HasOption(options, name)
      ensures r.Some? ==> r.value == Named(options, name)[0]
    {
      var i := 0;
      while i < |options|
        invariant 0 <= i <= |options|
        invariant Named(options, name) == Named(options[i..], name)
      {
        if options[i].number == name {
          HeadWithKey(Number, options[i..]);
          return Some(options[i]);
        }
        assert options[i..][1..] == options[i + 1..];
        i := i + 1;
      }
      r := None;
    }

    /** All options with number `name`. */
    method OptionsNamed(name: int) returns (r: seq<CoapOption>)
      ensures r == Named(options, name)
    {
      r := [];
      for i := 0 to |options|
        invariant r == Named(options[..i], name)
      {
        WithKeyConcat(Number, options[..i], [options[i]], name);
        assert options[..i + 1] == options[..i] + [options[i]];
        if options[i].number == name {
          r := r + [options[i]];
        }
      }
      assert options[..|options|] == options;
    }
  }

  // Histories of edits

  datatype Edit = Add(o: CoapOption) | RemoveAll(name: int) | RemoveOne(o: CoapOption) | Clear

  /** What one edit does to the list of a message. */
  function Edited(options: seq<CoapOption>, e: Edit): seq<CoapOption> {
    match e
    case Add(o) => Insert(options, o)
    case RemoveAll(name) => RemoveNamed(options, name)
    case RemoveOne(o) => RemoveFirst(options, o)
    case Clear => []
  }

  function EditedAll(edits: seq<Edit>): seq<CoapOption> {
    if edits == [] then [] else Edited(EditedAll(edits[..|edits| - 1]), edits[|edits| - 1])
  }

  /** What one edit does to the surviving options, kept in the order they were added: no
      sorting here. */
  function Surviving(before: seq<CoapOption>, e: Edit): seq<CoapOption> {
    match e
    case Add(o) => before + [o]
    case RemoveAll(name) => RemoveNamed(before, name)
    case RemoveOne(o) => RemoveFirst(before, o)
    case Clear => []
  }

  function Survivors(edits: seq<Edit>): seq<CoapOption> {
    if edits == [] then [] else Surviving(Survivors(edits[..|edits| - 1]), edits[|edits| - 1])
  }

  lemma {:induction false} RemoveNamedMembers(options: seq<CoapOption>, name: int)
    ensures forall x :: x in RemoveNamed(options, name) <==> x in options && x.number != name
  {
    if options != [] {
      RemoveNamedMembers(options[1..], name);
      assert forall x :: x in options <==> x == options[0] || x in options[1..];
    }
  }

  lemma {:induction false} RemoveNamedProjection(options: seq<CoapOption>, name: int, k: int)
    ensures Named(RemoveNamed(options, name), k) == if k == name then [] else Named(options, k)
  {
    if options != [] {
      RemoveNamedProjection(options[1..], name, k);
      if options[0].number != name {
        var rest := RemoveNamed(options[1..], name);
        assert ([options[0]] + rest)[1..] == rest;
      }
    }
  }

  lemma {:induction false} RemoveNamedKeepsSorted(options: seq<CoapOption>, name: int)
    requires Sorted(options)
    ensures Sorted(RemoveNamed(options, name))
  {
    if options != [] {
      RemoveNamedKeepsSorted(options[1..], name);
      RemoveNamedMembers(options[1..], name);
      var rest := RemoveNamed(options[1..], name);
      forall i | 0 <= i < |rest| ensures Number(options[0]) <= Number(rest[i]) {
        assert rest[i] in rest;
      }
    }
  }

  lemma {:induction false} RemoveFirstProjection(options: seq<CoapOption>, o: CoapOption, k: int)
    ensures Named(RemoveFirst(options, o), k)
         == if k == o.number then RemoveFirst(Named(options, k), o) else Named(options, k)
  {
    if options != [] {
      RemoveFirstProjection(options[1..], o, k);
      var rest := RemoveFirst(options[1..], o);
      assert ([options[0]] + rest)[1..] == rest;
    }
  }

  lemma {:induction false} RemoveFirstKeepsSorted(options: seq<CoapOption>, o: CoapOption)
    requires Sorted(options)
    ensures Sorted(RemoveFirst(options, o))
    ensures forall x :: x in RemoveFirst(options, o) ==> x in options
  {
    if options != [] && options[0] != o {
      RemoveFirstKeepsSorted(options[1..], o);
      var rest := RemoveFirst(options[1..], o);
      forall i | 0 <= i < |rest| ensures Number(options[0]) <= Number(rest[i]) {
        assert rest[i] in rest;
        assert rest[i] in options[1..];
      }
    }
  }

  lemma EditKeepsStableSort(list: seq<CoapOption>, before: seq<CoapOption>, e: Edit)
    requires IsStableSort(Number, list, before)
    ensures IsStableSort(Number, Edited(list, e), Surviving(before, e))
  {
    match e {
      case Add(o) =>
        InsertKeepsSorted(Number, list, o);
      case RemoveAll(name) =>
        RemoveNamedKeepsSorted(list, name);
      case RemoveOne(o) =>
        RemoveFirstKeepsSorted(list, o);
      case Clear =>
    }
    forall k ensures WithKey(Number, Edited(list, e), k) == WithKey(Number, Surviving(before, e), k) {
      EditKeepsProjection(list, before, e, k);
    }
  }

  lemma EditKeepsProjection(list: seq<CoapOption>, before: seq<CoapOption>, e: Edit, k: int)
    requires IsStableSort(Number, list, before)
    ensures WithKey(Number, Edited(list, e), k) == WithKey(Number, Surviving(before, e), k)
  {
    match e {
      case Add(o) =>
        InsertWithKey(Number, list, o, k);
        WithKeyConcat(Number, before, [o], k);
      case RemoveAll(name) =>
        RemoveNamedProjection(list, name, k);
        RemoveNamedProjection(before, name, k);
      case RemoveOne(o) =>
        RemoveFirstProjection(list, o, k);
        RemoveFirstProjection(before, o, k);
      case Clear =>
    }
  }

  /** After any history of additions and removals the list is the stable sort, by option
      number, of the surviving options in the order they were added. */
  lemma {:induction false} ListIsStableSortOfSurvivors(edits: seq<Edit>)
    ensures IsStableSort(Number, EditedAll(edits), Survivors(edits))
  {
    if edits != [] {
      var front, e := edits[..|edits| - 1], edits[|edits| - 1];
      ListIsStableSortOfSurvivors(front);
      EditKeepsStableSort(EditedAll(front), Survivors(front), e);
    }
  }

  /** The list a history leaves is therefore a function of the surviving insertion order alone. */
  lemma ListDependsOnlyOnSurvivors(edits: seq<Edit>, edits': seq<Edit>)
    requires Survivors(edits) == Survivors(edits')
    ensures EditedAll(edits) == EditedAll(edits')
    ensures EditedAll(edits) == SortBy(Number, Survivors(edits))
  {
    ListIsStableSortOfSurvivors(edits);
    ListIsStableSortOfSurvivors(edits');
    SortIsStable(Number, Survivors(edits));
    StableSortUnique(Number, EditedAll(edits), EditedAll(edits'));
    StableSortUnique(Number, EditedAll(edits), SortBy(Number, Survivors(edits)));
  }
}
