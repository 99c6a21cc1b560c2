/**
 * The material table `SimWorldBuilder::build` collects from its brush operations
 * (`src/world.rs`): a list of distinct materials starting with the blank one, and a map from
 * each material to its one-byte id.
 */
module MaterialTable {
  import opened Wrappers
  import opened Numeric
  import opened Materials
  import opened Volume

  /** The list of materials (`material_map`) and the id of each (`material_hash`). */
  datatype MaterialIndex = MaterialIndex(table: seq<Material>, ids: map<Material, Byte>)

  /**
   * The table after the materials `mats` have been seen in order: a material not yet in the
   * table is appended, and its id is its position cast to `u8`, which wraps past 255.
   */
  function Dedup(mats: seq<Material>): (r: MaterialIndex)
    ensures |r.table| >= 1 && r.table[0] == Blank()
    decreases |mats|
  {
    if mats == [] then MaterialIndex([Blank()], map[Blank() := 0])
    else
      var r := Dedup(mats[..|mats| - 1]);
      var m := mats[|mats| - 1];
      if m in r.table then r else MaterialIndex(r.table + [m], r.ids[m := |r.table| % 256])
  }

  /** The position of the first occurrence of `x` in `s`. */
  function FirstIndex<T(==)>(s: seq<T>, x: T): (k: nat)
    requires x in s
    ensures k < |s| && s[k] == x && x !in s[..k]
  {
    if s[0] == x then 0
    else
      var k := FirstIndex(s[1..], x);
      assert s[..k + 1] == [s[0]] + s[1..][..k];
      k + 1
  }

  /** A position holding `x` with no earlier `x` is the first index of `x`. */
  lemma FirstIndexIs<T>(s: seq<T>, x: T, k: nat)
    requires k < |s| && s[k] == x && x !in s[..k]
    ensures FirstIndex(s, x) == k
  {
  }

  /** An element of `s` has the same first index in any extension of `s`. */
  lemma FirstIndexExtend<T>(s: seq<T>, t: seq<T>, x: T)
    requires x in s
    ensures FirstIndex(s + t, x) == FirstIndex(s, x)
  {
    var k := FirstIndex(s, x);
    assert (s + t)[..k] == s[..k];
    FirstIndexIs(s + t, x, k);
  }

  /** The table holds the blank material and the materials seen, and nothing else. */
  lemma {:induction false} DedupContents(mats: seq<Material>)
    ensures forall m :: m in Dedup(mats).table <==> m == Blank() || m in mats
    decreases |mats|
  {
    if mats != [] {
      var front := mats[..|mats| - 1];
      DedupContents(front);
      assert mats == front + [mats[|mats| - 1]];
    }
  }

  /** No material appears twice in the table. */
  lemma {:induction false} DedupDistinct(mats: seq<Material>)
    ensures Distinct(Dedup(mats).table)
    decreases |mats|
  {
    if mats != [] {
      DedupDistinct(mats[..|mats| - 1]);
    }
  }

  /**
   * The ids are keyed by exactly the materials of the table, and the id of the material at
   * position i is i modulo 256.
   */
  lemma {:induction false} DedupIds(mats: seq<Material>)
    ensures forall m :: m in Dedup(mats).ids <==> m in Dedup(mats).table
    ensures forall i :: 0 <= i < |Dedup(mats).table| ==> Dedup(mats).ids[Dedup(mats).table[i]] == i % 256
    decreases |mats|
  {
    if mats != [] {
      var front := mats[..|mats| - 1];
      DedupIds(front);
      DedupDistinct(front);
      var r := Dedup(front);
      var m := mats[|mats| - 1];
      if m !in r.table {
        var t := r.table + [m];
        forall i | 0 <= i < |t|
          ensures Dedup(mats).ids[t[i]] == i % 256
        {
          if i < |r.table| {
            assert t[i] == r.table[i] && t[i] != m;
          }
        }
      }
    }
  }

  /**
   * With at most 256 materials no id wraps: the id of the material at position i is i, so every
   * id indexes the table and names the material it is the id of.
   */
  lemma DedupIdsArePositions(mats: seq<Material>)
    requires |Dedup(mats).table| <= 256
    ensures forall i :: 0 <= i < |Dedup(mats).table| ==>
              Dedup(mats).table[i] in Dedup(mats).ids && Dedup(mats).ids[Dedup(mats).table[i]] == i
  {
    DedupIds(mats);
  }

  /**
   * The table lists materials in the order they first appear among the blank material followed
   * by the materials seen.
   */
  lemma {:induction false} DedupOrder(mats: seq<Material>)
    ensures forall m :: m in Dedup(mats).table ==> m in [Blank()] + mats
    ensures forall i, j :: 0 <= i < j < |Dedup(mats).table| ==>
              FirstIndex([Blank()] + mats, Dedup(mats).table[i]) < FirstIndex([Blank()] + mats, Dedup(mats).table[j])
    decreases |mats|
  {
    DedupContents(mats);
    if mats != [] {
      var front := mats[..|mats| - 1];
      var m := mats[|mats| - 1];
      DedupOrder(front);
      DedupContents(front);
      var all := [Blank()] + front;
      assert [Blank()] + mats == all + [m];
      var t := Dedup(mats).table;
      var r := Dedup(front);
      forall x | x in r.table
        ensures FirstIndex(all + [m], x) == FirstIndex(all, x)
      {
        FirstIndexExtend(all, [m], x);
      }
      if m !in r.table {
        assert m !in all;
        assert (all + [m])[..|all|] == all;
        FirstIndexIs(all + [m], m, |all|);
        forall i, j | 0 <= i < j < |t|
          ensures FirstIndex(all + [m], t[i]) < FirstIndex(all + [m], t[j])
        {
          assert t[i] == r.table[i];
          if j < |r.table| {
            assert t[j] == r.table[j];
          }
        }
      }
    }
  }

  /**
   * The linear search of `build`: the first position of `m` in `table`, or None when `m` is
   * not there.
   */
  method FindMaterial(table: seq<Material>, m: Material) returns (found: Option<nat>)
    ensures found.None? <==> m !in table
    ensures found.Some? ==> found.value < |table| && table[found.value] == m && m !in table[..found.value]
  {
    found := None;
    for i := 0 to |table|
      invariant found.None? && m !in table[..i]
    {
      if table[i] == m {
        found := Some(i);
        break;
      }
      assert table[..i + 1] == table[..i] + [table[i]];
    }
  }

  /**
   * The material loop of `build`: the table starts as the blank material with id 0, and each
   * material not found in the table is pushed and given the id `(len - 1) as u8`.
   */
  method DedupMaterials(mats: seq<Material>) returns (materialMap: seq<Material>, materialHash: map<Material, Byte>)
    ensures MaterialIndex(materialMap, materialHash) == Dedup(mats)
  {
    materialMap := [Blank()];
    materialHash := map[Blank() := 0];
    for k := 0 to |mats|
      invariant MaterialIndex(materialMap, materialHash) == Dedup(mats[..k])
    {
      var mat := mats[k];
      var found := FindMaterial(materialMap, mat);
      assert mats[..k + 1][..k] == mats[..k];
      if found.None? {
        materialMap := materialMap + [mat];
        materialHash := materialHash[mat := (|materialMap| - 1) % 256];
      }
    }
    assert mats[..|mats|] == mats;
  }
}
