/** What the texture management operations of the dictionary do to lookups
    by name: the index the class keeps beside its texture list answers like
    a search of the list for the last texture carrying the name. */
module ArchiveProperties {
  import opened Wrappers
  import opened TxdTypes
  import opened TextureHeader
  import opened TextureArchive

  /** The position the index holds for a key is the last texture carrying it. */
  lemma IndexIsLast(a: Archive, k: Bytes)
    requires Consistent(a) && k in a.nameIndex
    ensures a.nameIndex[k] < |a.textures| && Key(a.textures[a.nameIndex[k]]) == k
    ensures forall j :: a.nameIndex[k] < j < |a.textures| ==> Key(a.textures[j]) != k
  {
    var n := a.nameIndex[k];
    forall j | n < j < |a.textures|
      ensures Key(a.textures[j]) != k
    {
      assert a.nameIndex[Key(a.textures[j])] >= j;
    }
  }

  /** A key is indexed exactly when some texture carries it. */
  lemma IndexedIffPresent(a: Archive, k: Bytes)
    requires Consistent(a)
    ensures k in a.nameIndex <==> exists j :: 0 <= j < |a.textures| && Key(a.textures[j]) == k
  {
    if k in a.nameIndex {
      assert Key(a.textures[a.nameIndex[k]]) == k;
    }
  }

  // ---------------------------------------------------------------- addTexture

  /** A texture just added is what its name finds, whatever the archive held
      under that name before; every other name finds what it found before. */
  lemma AddThenFind(a: Archive, h: Header, data: Bytes, name: Bytes)
    requires Consistent(a)
    ensures var r := AddTexture(a, h, data);
            (LowerName(name) == LowerName(h.diffuseName) ==> FindTexture(r, name) == Some(h))
            && (LowerName(name) != LowerName(h.diffuseName) ==> FindTexture(r, name) == FindTexture(a, name))
  {
    var r := AddTexture(a, h, data);
    assert r.nameIndex == a.nameIndex[LowerName(h.diffuseName) := |a.textures|];
  }

  // ---------------------------------------------------------------- removeTexture

  /** Position m of the list without position i is position m of the list
      before i and position m + 1 from i on. */
  lemma RemovedAt(t: seq<Entry>, i: nat, m: nat)
    requires i < |t| && m < |t| - 1
    ensures m < i ==> (t[..i] + t[i + 1..])[m] == t[m]
    ensures m >= i ==> (t[..i] + t[i + 1..])[m] == t[m + 1]
  {
  }

  /** findTexture answers from the index alone. */
  lemma FindThroughIndex(a: Archive, name: Bytes)
    requires Consistent(a)
    ensures var k := LowerName(name);
            FindTexture(a, name) == if k in a.nameIndex then Some(a.textures[a.nameIndex[k]].header) else None
  {
  }

  /** After removing position i, a key other than that texture's that was
      indexed is indexed at the shifted position of the same texture. */
  lemma RemoveShiftsPresentKey(a: Archive, i: nat, k: Bytes)
    requires Consistent(a) && i < |a.textures| && k != Key(a.textures[i]) && k in a.nameIndex
    ensures var r := RemoveTexture(a, i);
            k in r.nameIndex && r.textures[r.nameIndex[k]] == a.textures[a.nameIndex[k]]
  {
    var t := a.textures;
    var r := RemoveTexture(a, i);
    var u := t[..i] + t[i + 1..];
    assert r.textures == u && Consistent(r);
    IndexIsLast(a, k);
    var n := a.nameIndex[k];
    assert n != i;
    var n' := if n < i then n else n - 1;
    RemovedAt(t, i, n');
    if n < i {
      assert u[n'] == t[n];
    } else {
      assert n' + 1 == n;
      assert u[n'] == t[n];
    }
    assert k in r.nameIndex && r.nameIndex[k] >= n';
    IndexIsLast(r, k);
    var m := r.nameIndex[k];
    RemovedAt(t, i, m);
    assert m == n';
  }

  /** Removing a texture indexes no key that was not indexed before. */
  lemma RemoveAddsNoKey(a: Archive, i: nat, k: Bytes)
    requires Consistent(a) && i < |a.textures| && k !in a.nameIndex
    ensures k !in RemoveTexture(a, i).nameIndex
  {
    var t := a.textures;
    var r := RemoveTexture(a, i);
    assert r.textures == t[..i] + t[i + 1..] && Consistent(r);
    if k in r.nameIndex {
      IndexedIffPresent(a, k);
      var m := r.nameIndex[k];
      RemovedAt(t, i, m);
      assert false;
    }
  }

  /** Removing the texture at a position leaves every other name finding the
      same descriptor (the rebuilt index follows the shifted positions). */
  lemma RemoveKeepsOtherNames(a: Archive, i: nat, name: Bytes)
    requires Consistent(a) && i < |a.textures| && LowerName(name) != Key(a.textures[i])
    ensures FindTexture(RemoveTexture(a, i), name) == FindTexture(a, name)
  {
    if LowerName(name) in a.nameIndex {
      RemoveShiftsPresentKey(a, i, LowerName(name));
    } else {
      RemoveAddsNoKey(a, i, LowerName(name));
    }
    FindThroughIndex(a, name);
    FindThroughIndex(RemoveTexture(a, i), name);
  }

  /** Removing the texture a key is indexed at leaves the key indexed
      exactly when an earlier texture carries it. */
  lemma RemoveIndexedKey(a: Archive, k: Bytes)
    requires Consistent(a) && k in a.nameIndex
    ensures var n := a.nameIndex[k];
            k in RemoveTexture(a, n).nameIndex <==> exists i :: 0 <= i < n && Key(a.textures[i]) == k
  {
    var t := a.textures;
    IndexIsLast(a, k);
    var n := a.nameIndex[k];
    var r := RemoveTexture(a, n);
    assert r.textures == t[..n] + t[n + 1..] && Consistent(r);
    if k in r.nameIndex {
      var m := r.nameIndex[k];
      RemovedAt(t, n, m);
      assert m < n && Key(t[m]) == k;
    }
    if exists i :: 0 <= i < n && Key(t[i]) == k {
      var i :| 0 <= i < n && Key(t[i]) == k;
      RemovedAt(t, n, i);
      IndexedIffPresent(r, k);
    }
  }

  /** removeTexture(name) removes one texture only, the one the index
      holds: the name still finds something exactly when an earlier texture
      carried it too. */
  lemma RemoveByNameKeepsEarlierDuplicate(a: Archive, name: Bytes)
    requires Consistent(a)
    ensures var k := LowerName(name);
            FindTexture(RemoveTextureByName(a, name), name).Some?
            <==> exists i, j :: 0 <= i < j < |a.textures| && Key(a.textures[i]) == k && Key(a.textures[j]) == k
  {
    var k := LowerName(name);
    var t := a.textures;
    if k in a.nameIndex {
      IndexIsLast(a, k);
      RemoveIndexedKey(a, k);
      var n := a.nameIndex[k];
      FindThroughIndex(RemoveTexture(a, n), name);
      if exists i, j :: 0 <= i < j < |t| && Key(t[i]) == k && Key(t[j]) == k {
        var i, j :| 0 <= i < j < |t| && Key(t[i]) == k && Key(t[j]) == k;
        assert i < n;
      }
    } else {
      IndexedIffPresent(a, k);
    }
  }

  // ---------------------------------------------------------------- editing a descriptor

  /** An edit that keeps the name (up to case) keeps the index right. */
  lemma EditKeepingNameConsistent(a: Archive, i: nat, h: Header)
    requires Consistent(a) && i < |a.textures| && LowerName(h.diffuseName) == Key(a.textures[i])
    ensures Consistent(EditHeader(a, i, h))
  {
    var r := EditHeader(a, i, h);
    BuildIndexOfKeys(a.textures, r.textures);
  }

  /** Renaming the only texture with a name through its descriptor leaves the
      index stale: the old name is still indexed although no texture carries
      it, and the new name is not indexed at that position. */
  lemma RenameLeavesStaleIndex(a: Archive, i: nat, h: Header)
    requires Consistent(a) && i < |a.textures| && LowerName(h.diffuseName) != Key(a.textures[i])
    requires forall j :: 0 <= j < |a.textures| && j != i ==> Key(a.textures[j]) != Key(a.textures[i])
    ensures var r := EditHeader(a, i, h);
            Key(a.textures[i]) in r.nameIndex
            && (forall j :: 0 <= j < |r.textures| ==> Key(r.textures[j]) != Key(a.textures[i]))
            && !Consistent(r)
  {
    var r := EditHeader(a, i, h);
    var k := Key(a.textures[i]);
    assert k in a.nameIndex;
    assert forall j :: 0 <= j < |r.textures| ==> Key(r.textures[j]) != k by {
      forall j | 0 <= j < |r.textures|
        ensures Key(r.textures[j]) != k
      {
        if j == i {
          assert r.textures[j].header == h;
        }
      }
    }
    if Consistent(r) {
      IndexedIffPresent(r, k);
    }
  }

  /** On the stale index a rename leaves, lookups still work as the index
      says: the old name finds the renamed descriptor and removes that
      texture, and the new name finds nothing unless another texture
      already carried it. */
  lemma RenamedTextureFoundByOldName(a: Archive, i: nat, h: Header, oldName: Bytes)
    requires Consistent(a) && i < |a.textures| && LowerName(h.diffuseName) != Key(a.textures[i])
    requires forall j :: 0 <= j < |a.textures| && j != i ==> Key(a.textures[j]) != Key(a.textures[i])
    requires LowerName(oldName) == Key(a.textures[i])
    ensures var r := EditHeader(a, i, h);
            IndexInRange(r) && FindTexture(r, oldName) == Some(h)
            && RemoveTextureByName(r, oldName).textures == a.textures[..i] + a.textures[i + 1..]
    ensures (forall j :: 0 <= j < |a.textures| ==> Key(a.textures[j]) != LowerName(h.diffuseName))
            ==> FindTexture(EditHeader(a, i, h), h.diffuseName) == None
  {
    var r := EditHeader(a, i, h);
    var k := Key(a.textures[i]);
    IndexIsLast(a, k);
    assert a.nameIndex[k] == i;
    assert r.textures[..i] == a.textures[..i];
    assert r.textures[i + 1..] == a.textures[i + 1..];
    if forall j :: 0 <= j < |a.textures| ==> Key(a.textures[j]) != LowerName(h.diffuseName) {
      IndexedIffPresent(a, LowerName(h.diffuseName));
    }
  }
}
