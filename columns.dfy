/** `visibleColumns`: the ordered column names, each with a visibility flag. */
module Columns {
  import opened Values

  datatype Column = Column(name: string, visible: bool)

  /** The entries of the `visibleColumns` object, in key order. */
  type Registry = seq<Column>

  function Names(reg: Registry): (r: seq<string>)
    ensures |r| == |reg|
    ensures forall i :: 0 <= i < |reg| ==> r[i] == reg[i].name
  {
    if reg == [] then [] else [reg[0].name] + Names(reg[1..])
  }

  /** An object has each key once. */
  ghost predicate UniqueNames(reg: Registry)
  {
    forall i, j :: 0 <= i < j < |reg| ==> reg[i].name != reg[j].name
  }

  /** `visibleColumns[col]`, or None when the object has no such key. */
  function Lookup(reg: Registry, col: string): (r: Option<bool>)
    ensures r.Some? <==> col in Names(reg)
    ensures r.Some? ==> Column(col, r.value) in reg
  {
    if reg == [] then None
    else if reg[0].name == col then Some(reg[0].visible)
    else Lookup(reg[1..], col)
  }

  /** The registry used when nothing is stored: the six columns of the
      built-in rows, all visible, in this order. */
  const DefaultRegistry: Registry := [
    Column("name", true), Column("email", true), Column("age", true),
    Column("role", true), Column("department", true), Column("location", true)
  ]

  lemma DefaultRegistryIsUnique()
    ensures UniqueNames(DefaultRegistry)
  {
  }

  /** `{ ...visibleColumns, [col]: b }`: an existing key keeps its place and
      takes the new flag; a new key would go at the end. */
  function SetVisible(reg: Registry, col: string, b: bool): (r: Registry)
    ensures col in Names(reg) ==> Names(r) == Names(reg)
    ensures col !in Names(reg) ==> r == reg + [Column(col, b)]
  {
    if reg == [] then [Column(col, b)]
    else if reg[0].name == col then [Column(col, b)] + reg[1..]
    else [reg[0]] + SetVisible(reg[1..], col, b)
  }

  /** After the toggle the column reads b, and every other column reads as before. */
  lemma {:induction false} SetVisibleLookup(reg: Registry, col: string, b: bool, c: string)
    ensures Lookup(SetVisible(reg, col, b), col) == Some(b)
    ensures c != col ==> Lookup(SetVisible(reg, col, b), c) == Lookup(reg, c)
  {
    if reg != [] && reg[0].name != col {
      SetVisibleLookup(reg[1..], col, b, c);
    } else if reg == [] {
      assert Lookup([Column(col, b)], c) == Lookup([], c) || c == col;
    }
  }

  lemma SetVisibleUnique(reg: Registry, col: string, b: bool)
    requires UniqueNames(reg)
    ensures UniqueNames(SetVisible(reg, col, b))
  {
    var r := SetVisible(reg, col, b);
    if col in Names(reg) {
      assert forall i :: 0 <= i < |r| ==> r[i].name == Names(r)[i] == Names(reg)[i];
    }
  }

  /** Toggling one existing column changes that column's flag and nothing
      else: every other entry, and the order of the names, stay as they were. */
  lemma {:induction false} SetVisibleOnly(reg: Registry, col: string, b: bool, i: int)
    requires UniqueNames(reg) && col in Names(reg) && 0 <= i < |reg|
    ensures |SetVisible(reg, col, b)| == |reg|
    ensures SetVisible(reg, col, b)[i]
         == if reg[i].name == col then Column(col, b) else reg[i]
  {
    var r := SetVisible(reg, col, b);
    if reg[0].name != col {
      assert Names(reg) == [reg[0].name] + Names(reg[1..]);
      var rest := SetVisible(reg[1..], col, b);
      assert r == [reg[0]] + rest;
      if i > 0 {
        SetVisibleOnly(reg[1..], col, b, i - 1);
        assert r[i] == rest[i - 1];
      }
    } else {
      assert r == [Column(col, b)] + reg[1..];
      if i > 0 {
        assert reg[0].name != reg[i].name;
      }
    }
  }

  /** `Object.keys(visibleColumns).filter(key => visibleColumns[key])`, also
      the headers the table shows. */
  function VisibleKeys(reg: Registry): (r: seq<string>)
    ensures |r| <= |reg|
    ensures forall k :: k in r <==> Column(k, true) in reg
  {
    if reg == [] then []
    else if reg[0].visible then [reg[0].name] + VisibleKeys(reg[1..])
    else VisibleKeys(reg[1..])
  }

  /** The visible keys come in registry order: they are the registry's names
      with the hidden ones left out. */
  lemma {:induction false} VisibleKeysInOrder(reg: Registry)
    ensures Subsequence(VisibleKeys(reg), Names(reg))
  {
    if reg != [] {
      VisibleKeysInOrder(reg[1..]);
      assert Names(reg)[1..] == Names(reg[1..]);
    }
  }

  /** With each name once in the registry, each visible key appears once. */
  lemma {:induction false} VisibleKeysDistinct(reg: Registry)
    requires UniqueNames(reg)
    ensures forall i, j :: 0 <= i < j < |VisibleKeys(reg)| ==> VisibleKeys(reg)[i] != VisibleKeys(reg)[j]
  {
    if reg != [] {
      VisibleKeysDistinct(reg[1..]);
    }
  }

  /** With each name once, the visible keys are exactly the names whose flag is true. */
  lemma {:induction false} VisibleKeysByFlag(reg: Registry, k: string)
    requires UniqueNames(reg)
    ensures k in VisibleKeys(reg) <==> Lookup(reg, k) == Some(true)
  {
    if reg != [] {
      VisibleKeysByFlag(reg[1..], k);
    }
  }

  /** The keys with c removed, order kept. */
  function Without(keys: seq<string>, c: string): seq<string>
  {
    if keys == [] then []
    else if keys[0] == c then Without(keys[1..], c)
    else [keys[0]] + Without(keys[1..], c)
  }

  /** Hiding a column removes exactly that name from the visible keys and
      leaves the others in order. */
  lemma {:induction false} HideRemovesKey(reg: Registry, col: string)
    requires UniqueNames(reg) && col in Names(reg)
    ensures VisibleKeys(SetVisible(reg, col, false)) == Without(VisibleKeys(reg), col)
  {
    if reg[0].name == col {
      HideNotVisible(reg[1..], col);
      WithoutAbsent(VisibleKeys(reg[1..]), col);
    } else {
      assert col in Names(reg[1..]);
      HideRemovesKey(reg[1..], col);
    }
  }

  lemma {:induction false} HideNotVisible(reg: Registry, col: string)
    requires col !in Names(reg)
    ensures col !in VisibleKeys(reg)
  {
  }

  lemma {:induction false} WithoutAbsent(keys: seq<string>, c: string)
    requires c !in keys
    ensures Without(keys, c) == keys
  {
    if keys != [] {
      WithoutAbsent(keys[1..], c);
    }
  }
}
