/**
 The saved-text store: named texts kept in a dictionary, saved from the
 editor under a name, loaded back into the editor, deleted, and listed by
 name in sorted order. Writing the dictionary to its JSON file is not
 modelled; every change here is followed by such a write in the program.
 */
module SavedTexts {
  import opened Text

  type Store = map<string, string>

  datatype SaveOutcome = NoTextToSave | NoName | Saved(name: string)

  /** The store after a save request, what the status line reports, and the
      contents of the name field afterwards. */
  datatype SaveResult = SaveResult(store: Store, outcome: SaveOutcome, nameField: string)

  /** The save control. The editor's text is stripped and must not be
      empty; then the name field is stripped and must not be empty; then the
      text is stored under the name, replacing any text of that name, and the
      name field is cleared. A refused save changes nothing. */
  function Save(store: Store, editor: string, nameField: string): (r: SaveResult)
    ensures r.outcome == NoTextToSave <==> AllSpace(editor)
    ensures r.outcome == NoName <==> !AllSpace(editor) && AllSpace(nameField)
    ensures !r.outcome.Saved? ==> r.store == store && r.nameField == nameField
    ensures r.outcome.Saved? ==>
              && r.outcome.name == Strip(nameField) && r.outcome.name != []
              && r.outcome.name in r.store && r.store[r.outcome.name] == Strip(editor)
              && r.store.Keys == store.Keys + {r.outcome.name}
              && (forall k :: k in store && k != r.outcome.name ==> r.store[k] == store[k])
              && r.nameField == []
  {
    var text := Strip(editor);
    if text == [] then SaveResult(store, NoTextToSave, nameField)
    else
      var name := Strip(nameField);
      if name == [] then SaveResult(store, NoName, nameField)
      else SaveResult(store[name := text], Saved(name), [])
  }

  /** The entry picked in the list, if any. */
  datatype Selection = NoSelection | Selected(name: string)

  /** What a load request does: nothing selected is an error; a selected
      name that is no longer stored is ignored without a message; otherwise
      the editor receives the stored text. */
  datatype LoadOutcome = NothingSelected | NotStored | Loaded(text: string)

  function Load(store: Store, sel: Selection): (r: LoadOutcome)
    ensures r == NothingSelected <==> sel == NoSelection
    ensures r.Loaded? <==> sel.Selected? && sel.name in store
    ensures r.Loaded? ==> r.text == store[sel.name]
  {
    match sel
    case NoSelection => NothingSelected
    case Selected(name) => if name in store then Loaded(store[name]) else NotStored
  }

  datatype DeleteOutcome = NothingToDelete | NotFound | Deleted(name: string)

  datatype DeleteResult = DeleteResult(store: Store, outcome: DeleteOutcome)

  /** The delete control: removes the selected name and nothing else, and
      only if it is stored; otherwise the store is left as it was. */
  function Delete(store: Store, sel: Selection): (r: DeleteResult)
    ensures r.outcome == NothingToDelete <==> sel == NoSelection
    ensures r.outcome.Deleted? <==> sel.Selected? && sel.name in store
    ensures !r.outcome.Deleted? ==> r.store == store
    ensures r.outcome.Deleted? ==>
              && r.outcome.name == sel.name
              && r.store.Keys == store.Keys - {sel.name}
              && (forall k :: k in r.store ==> r.store[k] == store[k])
  {
    match sel
    case NoSelection => DeleteResult(store, NothingToDelete)
    case Selected(name) =>
      if name in store then DeleteResult(store - {name}, Deleted(name)) else DeleteResult(store, NotFound)
  }

  /** A text saved under a name loads back, stripped, by that name. */
  lemma SaveThenLoad(store: Store, editor: string, nameField: string)
    requires !AllSpace(editor) && !AllSpace(nameField)
    ensures Load(Save(store, editor, nameField).store, Selected(Strip(nameField))) == Loaded(Strip(editor))
  {
  }

  /** A deleted name no longer loads, and deleting it again finds nothing. */
  lemma DeleteThenLoad(store: Store, name: string)
    ensures Load(Delete(store, Selected(name)).store, Selected(name)) == NotStored
    ensures Delete(Delete(store, Selected(name)).store, Selected(name)).outcome == NotFound
  {
  }

  /** Saving under a new name and deleting that name restores the store. */
  lemma SaveThenDelete(store: Store, editor: string, nameField: string)
    requires !AllSpace(editor) && !AllSpace(nameField) && Strip(nameField) !in store
    ensures Delete(Save(store, editor, nameField).store, Selected(Strip(nameField))).store == store
  {
    var r := Save(store, editor, nameField).store;
    assert r - {Strip(nameField)} == store;
  }

  /** Every name and every text in the store is non-empty and has no
      surrounding whitespace. Saves keep this; a store read back from a file
      edited by hand need not satisfy it. */
  ghost predicate Clean(store: Store) {
    forall k :: k in store ==> k != [] && Strip(k) == k && store[k] != [] && Strip(store[k]) == store[k]
  }

  lemma SaveClean(store: Store, editor: string, nameField: string)
    requires Clean(store)
    ensures Clean(Save(store, editor, nameField).store)
  {
    var r := Save(store, editor, nameField);
    if r.outcome.Saved? {
      var name, text := Strip(nameField), Strip(editor);
      StripIdempotent(editor);
      StripIdempotent(nameField);
      assert r.store == store[name := text];
      forall k | k in r.store
        ensures k != [] && Strip(k) == k && r.store[k] != [] && Strip(r.store[k]) == r.store[k]
      {
        if k != name {
          assert k in store;
        }
      }
    }
  }

  lemma DeleteClean(store: Store, sel: Selection)
    requires Clean(store)
    ensures Clean(Delete(store, sel).store)
  {
  }

  /** Python's ordering of strings: code point by code point, and a proper
      prefix before the longer string. */
  predicate Below(a: string, b: string) {
    if a == [] then b != []
    else b != [] && (a[0] < b[0] || (a[0] == b[0] && Below(a[1..], b[1..])))
  }

  lemma {:induction false} BelowIrreflexive(a: string)
    ensures !Below(a, a)
  {
    if a != [] {
      BelowIrreflexive(a[1..]);
    }
  }

  lemma {:induction false} BelowTransitive(a: string, b: string, c: string)
    requires Below(a, b) && Below(b, c)
    ensures Below(a, c)
  {
    if a != [] && a[0] == b[0] && b[0] == c[0] {
      BelowTransitive(a[1..], b[1..], c[1..]);
    }
  }

  lemma {:induction false} BelowTotal(a: string, b: string)
    ensures a == b || Below(a, b) || Below(b, a)
  {
    if a != [] && b != [] && a[0] == b[0] {
      BelowTotal(a[1..], b[1..]);
      if a[1..] == b[1..] {
        assert a == [a[0]] + a[1..] && b == [b[0]] + b[1..];
      }
    }
  }

  /** Strictly increasing, hence without repeats. */
  ghost predicate Sorted(names: seq<string>) {
    forall i, j :: 0 <= i < j < |names| ==> Below(names[i], names[j])
  }

  /** Every non-empty set of names has a least one. */
  lemma {:induction false} Least(names: set<string>) returns (m: string)
    requires names != {}
    ensures m in names && forall x :: x in names && x != m ==> Below(m, x)
    decreases |names|
  {
    var x :| x in names;
    if names == {x} {
      m := x;
    } else {
      var y := Least(names - {x});
      BelowTotal(x, y);
      if Below(x, y) {
        m := x;
        forall z | z in names && z != m
          ensures Below(m, z)
        {
          if z != y {
            BelowTransitive(x, y, z);
          }
        }
      } else {
        m := y;
      }
    }
  }

  /** Every name listed so far comes before the least remaining name, and so
      before every other remaining name. */
  lemma BelowThrough(names: seq<string>, rest: set<string>, m: string)
    requires m in rest && forall x :: x in rest && x != m ==> Below(m, x)
    requires forall i, n :: 0 <= i < |names| && n in rest ==> Below(names[i], n)
    ensures forall i, n :: 0 <= i < |names| && n in rest - {m} ==> Below(names[i], n)
  {
    forall i, n | 0 <= i < |names| && n in rest - {m}
      ensures Below(names[i], n)
    {
      BelowTransitive(names[i], m, n);
    }
  }

  /** The names of the list view: every stored name once, in Python's
      sorted order. */
  method ListNames(store: Store) returns (names: seq<string>)
    ensures Sorted(names)
    ensures forall n :: n in names <==> n in store
  {
    names := [];
    var rest := store.Keys;
    while rest != {}
      invariant rest <= store.Keys
      invariant forall n :: n in names <==> n in store && n !in rest
      invariant Sorted(names)
      invariant forall i, n :: 0 <= i < |names| && n in rest ==> Below(names[i], n)
      decreases |rest|
    {
      ghost var least := Least(rest);
      var m :| m in rest && forall x :: x in rest && x != m ==> Below(m, x);
      BelowThrough(names, rest, m);
      names := names + [m];
      rest := rest - {m};
    }
  }

  lemma SameEmpty(a: seq<string>, b: seq<string>)
    requires forall n :: n in a <==> n in b
    ensures a == [] <==> b == []
  {
    if a != [] {
      assert a[0] in a;
    }
    if b != [] {
      assert b[0] in b;
    }
  }

  /** The sorted listing is determined by the set of names alone. */
  lemma {:induction false} SortedUnique(a: seq<string>, b: seq<string>)
    requires Sorted(a) && Sorted(b)
    requires forall n :: n in a <==> n in b
    ensures a == b
    decreases |a|
  {
    SameEmpty(a, b);
    if a != [] {
      assert a[0] in b && b[0] in a;
      if a[0] != b[0] {
        var i :| 0 <= i < |b| && b[i] == a[0];
        var j :| 0 <= j < |a| && a[j] == b[0];
        BelowTransitive(a[0], b[0], a[0]);
        BelowIrreflexive(a[0]);
      }
      forall n
        ensures n in a[1..] <==> n in b[1..]
      {
        if n in a[1..] {
          var i :| 0 <= i < |a[1..]| && a[1..][i] == n;
          assert a[i + 1] == n;
          assert n in b;
          var k :| 0 <= k < |b| && b[k] == n;
          BelowIrreflexive(n);
          assert k != 0;
          assert b[1..][k - 1] == n;
        }
        if n in b[1..] {
          var j :| 0 <= j < |b[1..]| && b[1..][j] == n;
          assert b[j + 1] == n;
          assert n in a;
          var k :| 0 <= k < |a| && a[k] == n;
          BelowIrreflexive(n);
          assert k != 0;
          assert a[1..][k - 1] == n;
        }
      }
      SortedUnique(a[1..], b[1..]);
      assert a == [a[0]] + a[1..] && b == [b[0]] + b[1..];
    }
  }
}
