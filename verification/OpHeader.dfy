/** Headers of ops: what is exchanged about a history while the ops themselves are absent.
    As the hash of a header covers its predecessors, a header holds them here. */
module OpHeaders {
  import opened Hashing

  datatype Header = Header(opHash: Hash, prevs: set<Header>, height: nat, size: nat)

  /** The sizes of some headers, added up. */
  ghost function TotalSize(hs: set<Header>): nat {
    if hs == {} then 0
    else
      var h :| h in hs;
      h.size + TotalSize(hs - {h})
  }

  lemma {:induction false} TotalSizeOneMore(hs: set<Header>, h: Header)
    requires h in hs
    ensures TotalSize(hs) == h.size + TotalSize(hs - {h})
    decreases hs
  {
    var g :| g in hs && TotalSize(hs) == g.size + TotalSize(hs - {g});
    if g != h {
      TotalSizeOneMore(hs - {g}, h);
      TotalSizeOneMore(hs - {h}, g);
      assert hs - {g} - {h} == hs - {h} - {g};
    }
  }

  /** `height` is one more than that of the highest predecessor. */
  ghost predicate IsHeightOver(height: nat, prevs: set<Header>) {
    && height >= 1
    && (forall p :: p in prevs ==> p.height < height)
    && (height > 1 ==> exists p :: p in prevs && p.height + 1 == height)
  }

  method ComputeProps(prevs: set<Header>) returns (height: nat, size: nat)
    ensures IsHeightOver(height, prevs) && size == 1 + TotalSize(prevs)
  {
    height, size := 1, 1;
    var rest := prevs;
    while rest != {}
      invariant rest <= prevs && IsHeightOver(height, prevs - rest)
      invariant size + TotalSize(rest) == 1 + TotalSize(prevs)
    {
      var p :| p in rest;
      TotalSizeOneMore(rest, p);
      assert p in prevs - (rest - {p});
      assert prevs - (rest - {p}) == prevs - rest + {p};
      if p.height + 1 > height {
        height := p.height + 1;
      }
      size := size + p.size;
      rest := rest - {p};
    }
    assert prevs - rest == prevs;
  }

  method NewHeader(opHash: Hash, prevs: set<Header>) returns (h: Header)
    requires forall p :: p in prevs ==> IsComputed(p)
    ensures h.opHash == opHash && h.prevs == prevs && IsComputed(h)
  {
    var height, size := ComputeProps(prevs);
    h := Header(opHash, prevs, height, size);
  }

  /** The properties of a header and of all headers before it have been computed. */
  ghost predicate IsComputed(h: Header) {
    && IsHeightOver(h.height, h.prevs) && h.size == 1 + TotalSize(h.prevs)
    && forall p :: p in h.prevs ==> IsComputed(p)
  }

  /** A way back through a history, from each header to one of its predecessors. */
  ghost predicate IsWayBack(path: seq<Header>, h: Header) {
    && |path| > 0 && path[0] == h
    && forall i :: 0 < i < |path| ==> path[i] in path[i - 1].prevs
  }

  /** The height is the length of the longest way back. */
  lemma {:induction false} HeightIsLongestWayBack(h: Header)
    requires IsComputed(h)
    ensures forall path :: IsWayBack(path, h) ==> |path| <= h.height
    ensures exists path :: IsWayBack(path, h) && |path| == h.height
    decreases h
  {
    forall path | IsWayBack(path, h)
      ensures |path| <= h.height
    {
      if |path| > 1 {
        HeightIsLongestWayBack(path[1]);
        assert IsWayBack(path[1..], path[1]);
      }
    }
    if h.height == 1 {
      assert IsWayBack([h], h);
    } else {
      var p :| p in h.prevs && p.height + 1 == h.height;
      HeightIsLongestWayBack(p);
      var path :| IsWayBack(path, p) && |path| == p.height;
      assert IsWayBack([h] + path, h);
    }
  }
}
