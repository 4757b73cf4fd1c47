/** `assertSafeTarPath`: what a safe member path is, and where unpacking it leads. */
module TarPaths {
  import opened Common
  import opened Splitting
  import opened TarReader

  /** A piece of a path that holds no separator of either kind and no NUL. */
  predicate IsName(s: Bytes) { SLASH !in s && 0x5C !in s && 0 !in s }

  /** Where one piece leads, as a file system reads it. */
  function Stride(at: seq<Bytes>, piece: Bytes): seq<Bytes> {
    if piece == [] || piece == [0x2E] then at
    else if piece == [0x2E, 0x2E] then (if at == [] then [] else at[..|at| - 1])
    else at + [piece]
  }

  /** Going from a place along pieces. */
  function Walk(at: seq<Bytes>, pieces: seq<Bytes>): seq<Bytes>
    decreases |pieces|
  {
    if pieces == [] then at else Walk(Stride(at, pieces[0]), pieces[1..])
  }

  predicate Steady(piece: Bytes) { piece != [] && piece != [0x2E] && piece != [0x2E, 0x2E] }

  predicate AllSteady(pieces: seq<Bytes>) { forall i | 0 <= i < |pieces| :: Steady(pieces[i]) }

  lemma StrideMeans(at: seq<Bytes>, piece: Bytes)
    ensures |Stride(at, piece)| <= |at| + 1
    ensures |Stride(at, piece)| == |at| + 1 <==> Steady(piece)
    ensures Steady(piece) ==> Stride(at, piece) == at + [piece]
  {
  }

  lemma SteadyFirst(pieces: seq<Bytes>)
    requires pieces != []
    ensures AllSteady(pieces) <==> Steady(pieces[0]) && AllSteady(pieces[1..])
  {
    assert pieces == [pieces[0]] + pieces[1..];
  }

  lemma {:induction false} WalkIsNoLonger(at: seq<Bytes>, pieces: seq<Bytes>)
    ensures |Walk(at, pieces)| <= |at| + |pieces|
    ensures |Walk(at, pieces)| == |at| + |pieces| <==> AllSteady(pieces)
    ensures AllSteady(pieces) ==> Walk(at, pieces) == at + pieces
    decreases |pieces|
  {
    hide Stride, Steady, AllSteady;
    if pieces == [] {
      NothingIsSteady();
    } else {
      var next := Stride(at, pieces[0]);
      StrideMeans(at, pieces[0]);
      SteadyFirst(pieces);
      WalkIsNoLonger(next, pieces[1..]);
      assert at + [pieces[0]] + pieces[1..] == at + pieces;
    }
  }

  lemma NothingIsSteady()
    ensures AllSteady([])
  {
  }

  /** Names from the package down, none of which leads anywhere but one level deeper. */
  predicate LeadsDown(names: seq<Bytes>)
    ensures LeadsDown(names) ==> names != []
  {
    names != [] && names[0] == PACKAGE && (forall i | 0 <= i < |names| :: IsName(names[i])) && Walk([], names) == names
  }

  lemma LeadsDownMeans(names: seq<Bytes>)
    ensures LeadsDown(names) <==>
            && names != [] && names[0] == PACKAGE
            && forall i | 0 <= i < |names| :: IsName(names[i]) && Steady(names[i])
  {
    hide IsName;
    WalkIsNoLonger([], names);
    assert [] + names == names;
  }

  /** The path without the slash it may end with. */
  function Normalized(path: Bytes): Bytes {
    if path != [] && path[|path| - 1] == SLASH then path[..|path| - 1] else path
  }

  lemma NamesOfPath(path: Bytes)
    requires 0x5C !in path && 0 !in path
    ensures forall i | 0 <= i < |Split(path, SLASH)| :: IsName(Split(path, SLASH)[i])
  {
    hide Split;
    var names := Split(path, SLASH);
    forall i | 0 <= i < |names| ensures IsName(names[i]) {
      assert names[i] in names;
      PieceOf(path, names[i]);
    }
  }

  lemma {:induction false} PieceOf(path: Bytes, piece: Bytes)
    requires piece in Split(path, SLASH)
    ensures forall b | b in piece :: b in path
    decreases |path|
  {
    if IndexOf(path, SLASH).Some? {
      var i := IndexOf(path, SLASH).value;
      if piece != path[..i] { PieceOf(path[i + 1..], piece); }
    }
  }

  lemma JoinedHolds(names: seq<Bytes>, b: Byte)
    requires names != [] && b != SLASH && forall i | 0 <= i < |names| :: b !in names[i]
    ensures b !in Joined(names, SLASH)
  {
    hide Joined;
    forall i | 0 <= i < |Joined(names, SLASH)| ensures Joined(names, SLASH)[i] != b {
      JoinedCharacters(names, SLASH, i);
    }
  }

  /** Below the package, or the package itself, exactly when its name comes first. */
  lemma PackageFirst(path: Bytes)
    ensures path == PACKAGE || PACKAGE + [SLASH] <= path <==> Split(path, SLASH)[0] == PACKAGE
  {
    assert SLASH !in PACKAGE;
    if PACKAGE + [SLASH] <= path {
      var rest := path[|PACKAGE| + 1..];
      assert path == PACKAGE + [SLASH] + rest;
      SplitOnce(PACKAGE, rest, SLASH);
    } else if path == PACKAGE {
      SplitPlain(path, SLASH);
    } else if IndexOf(path, SLASH).Some? {
      var i := IndexOf(path, SLASH).value;
      assert path[..i + 1] == path[..i] + [SLASH];
    }
  }

  lemma SafeMeans(path: Bytes)
    ensures SafePath(path) <==> LeadsDown(Split(Normalized(path), SLASH)) && Plain(Normalized(path))
  {
    hide Split, IsName, LeadsDown;
    var names := Split(Normalized(path), SLASH);
    LeadsDownMeans(names);
    PackageFirst(Normalized(path));
    if 0x5C !in Normalized(path) && 0 !in Normalized(path) { NamesOfPath(Normalized(path)); }
    assert forall i | 0 <= i < |names| :: names[i] in names;
  }

  predicate Plain(path: Bytes) { 0x5C !in path && 0 !in path }

  lemma LastIsNoSlash(names: seq<Bytes>)
    requires LeadsDown(names)
    ensures Normalized(Joined(names, SLASH)) == Joined(names, SLASH)
    ensures Normalized(Joined(names, SLASH) + [SLASH]) == Joined(names, SLASH)
    ensures Plain(Joined(names, SLASH)) && Split(Joined(names, SLASH), SLASH) == names
  {
    hide Joined, Split;
    LeadsDownMeans(names);
    var path := Joined(names, SLASH);
    JoinedEnds(names, SLASH);
    JoinedHolds(names, 0);
    JoinedHolds(names, 0x5C);
    SplitJoin(names, SLASH);
    var last := names[|names| - 1];
    assert path[|path| - 1] == last[|last| - 1] && last[|last| - 1] in last;
  }

  /** A path is safe exactly when it spells, in the one way there is, names that lead down from the package. */
  lemma SafePathIsExact(path: Bytes)
    ensures SafePath(path) <==>
            exists names :: LeadsDown(names) && (path == Joined(names, SLASH) || path == Joined(names, SLASH) + [SLASH])
  {
    hide Joined, Split, LeadsDown, SafePath, Plain;
    SafeMeans(path);
    if SafePath(path) {
      JoinSplit(Normalized(path), SLASH);
      assert path == Normalized(path) || path == Normalized(path) + [SLASH];
    }
    forall names | LeadsDown(names) && (path == Joined(names, SLASH) || path == Joined(names, SLASH) + [SLASH])
      ensures SafePath(path)
    {
      LastIsNoSlash(names);
    }
  }

  /** The path as a system reads it that separates with backslashes too. */
  function Slashed(path: Bytes): (r: Bytes)
    ensures 0x5C !in path ==> r == path
  {
    seq(|path|, i requires 0 <= i < |path| => if path[i] == 0x5C then SLASH else path[i])
  }

  /** Wherever a safe path is unpacked, and with either separator, it leads into the package below that place. */
  lemma SafePathLeadsInside(path: Bytes, at: seq<Bytes>)
    requires SafePath(path)
    ensures at + [PACKAGE] <= Walk(at, Split(Slashed(path), SLASH))
  {
    hide Split, Joined, LeadsDown, SafePath;
    SafeMeans(path);
    var names := Split(Normalized(path), SLASH);
    LeadsDownMeans(names);
    WalkIsNoLonger(at, names);
    assert at + [PACKAGE] <= at + names;
    if path != Normalized(path) {
      assert path == Normalized(path) + [SLASH];
      assert names[|names| - 1] + [] == names[|names| - 1];
      SplitPlain([], SLASH);
      SplitOnce([], [], SLASH);
      assert [] + [SLASH] + [] == [SLASH];
      SplitConcat(Normalized(path), [SLASH], SLASH);
      assert Glue(names, [[], []]) == names + [[]];
      WalkOneMore(at, names);
    }
    assert 0x5C !in path;
  }

  /** An empty last piece goes nowhere. */
  lemma {:induction false} WalkOneMore(at: seq<Bytes>, pieces: seq<Bytes>)
    ensures Walk(at, pieces + [[]]) == Walk(at, pieces)
    decreases |pieces|
  {
    var more: seq<Bytes> := pieces + [[]];
    if pieces == [] {
      assert more[0] == [] && more[1..] == [];
    } else {
      assert more[0] == pieces[0] && more[1..] == pieces[1..] + [[]];
      var next := Stride(at, pieces[0]);
      WalkOneMore(next, pieces[1..]);
    }
  }
}
