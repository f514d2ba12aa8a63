/** The image walk of Render in internal/markdown/renderer.go: the references a body makes, each
    asset once, in the order of first appearance. */
module MediaReferences {
  import opened Common

  datatype Reference = Reference(asset: string, alt: string)

  /** No asset is shown with two different alternative texts. */
  predicate Consistent(images: seq<Reference>) {
    forall i, j | 0 <= i < j < |images| :: images[i].asset == images[j].asset ==> images[i].alt == images[j].alt
  }

  predicate Mentions(refs: seq<Reference>, asset: string) { exists r | r in refs :: r.asset == asset }

  /** Each asset's first appearance. */
  function FirstAppearances(images: seq<Reference>): seq<Reference> {
    if images == [] then []
    else
      var last := images[|images| - 1];
      var refs := FirstAppearances(images[..|images| - 1]);
      if Mentions(refs, last.asset) then refs else refs + [last]
  }

  lemma {:induction false} FirstAppearancesMembers(images: seq<Reference>)
    ensures forall r | r in FirstAppearances(images) :: r in images
    ensures forall a :: Mentions(FirstAppearances(images), a) <==> Mentions(images, a)
  {
    if images != [] {
      var front, last := images[..|images| - 1], images[|images| - 1];
      FirstAppearancesMembers(front);
      assert images == front + [last];
      forall a ensures Mentions(FirstAppearances(images), a) <==> Mentions(images, a) {
        MentionsAppend(front, last, a);
        MentionsAppend(FirstAppearances(front), last, a);
      }
    }
  }

  lemma MentionsAppend(refs: seq<Reference>, last: Reference, asset: string)
    ensures Mentions(refs + [last], asset) <==> Mentions(refs, asset) || last.asset == asset
  {
    assert (refs + [last])[|refs|] == last;
    if Mentions(refs, asset) {
      var r :| r in refs && r.asset == asset;
      assert r in refs + [last];
    }
  }

  predicate DistinctAssets(refs: seq<Reference>) {
    forall i, j | 0 <= i < j < |refs| :: refs[i].asset != refs[j].asset
  }

  function FirstIndex(images: seq<Reference>, asset: string): (i: nat)
    requires Mentions(images, asset)
    ensures i < |images| && images[i].asset == asset
    ensures forall j | 0 <= j < i :: images[j].asset != asset
  {
    if images[0].asset == asset then 0
    else
      assert Mentions(images[1..], asset);
      1 + FirstIndex(images[1..], asset)
  }

  lemma FirstIndexExtends(front: seq<Reference>, last: Reference, asset: string)
    requires Mentions(front + [last], asset)
    ensures FirstIndex(front + [last], asset) == if Mentions(front, asset) then FirstIndex(front, asset) else |front|
  {
    var i := FirstIndex(front + [last], asset);
    if Mentions(front, asset) {
      var f := FirstIndex(front, asset);
      assert (front + [last])[f] == front[f];
      assert i < |front| && front[i] == (front + [last])[i];
    }
  }

  ghost predicate InFirstOrder(images: seq<Reference>, refs: seq<Reference>) {
    && (forall r | r in refs :: Mentions(images, r.asset) && images[FirstIndex(images, r.asset)] == r)
    && (forall i, j | 0 <= i < j < |refs| :: FirstIndex(images, refs[i].asset) < FirstIndex(images, refs[j].asset))
  }

  lemma InFirstOrderExtends(front: seq<Reference>, last: Reference, refs: seq<Reference>)
    requires InFirstOrder(front, refs)
    ensures InFirstOrder(front + [last], refs)
    ensures !Mentions(front, last.asset) ==> InFirstOrder(front + [last], refs + [last])
  {
    var images := front + [last];
    assert images[|front|] == last;
    forall r | r in refs
      ensures Mentions(images, r.asset) && FirstIndex(images, r.asset) == FirstIndex(front, r.asset)
    {
      var f := FirstIndex(front, r.asset);
      assert images[f] == front[f];
      FirstIndexExtends(front, last, r.asset);
    }
    if !Mentions(front, last.asset) {
      FirstIndexExtends(front, last, last.asset);
      LastInFirstOrder(images, refs, last);
    }
  }

  lemma LastInFirstOrder(images: seq<Reference>, refs: seq<Reference>, last: Reference)
    requires InFirstOrder(images, refs) && Mentions(images, last.asset) &&
             images[FirstIndex(images, last.asset)] == last
    requires forall r | r in refs :: FirstIndex(images, r.asset) < FirstIndex(images, last.asset)
    ensures InFirstOrder(images, refs + [last])
  {
    var all := refs + [last];
    forall i, j | 0 <= i < j < |all| ensures FirstIndex(images, all[i].asset) < FirstIndex(images, all[j].asset) {
      assert all[i] == refs[i] && refs[i] in refs;
      if j < |refs| { assert all[j] == refs[j]; }
    }
  }

  /** The references are exactly the first appearances, in the order of the body. */
  lemma {:induction false} FirstAppearancesOrder(images: seq<Reference>)
    ensures DistinctAssets(FirstAppearances(images)) && InFirstOrder(images, FirstAppearances(images))
  {
    if images != [] {
      var front, last := images[..|images| - 1], images[|images| - 1];
      FirstAppearancesOrder(front);
      FirstAppearancesMembers(front);
      InFirstOrderExtends(front, last, FirstAppearances(front));
      assert images == front + [last];
    }
  }

  lemma Extends(images: seq<Reference>, image: Reference)
    ensures FirstAppearances(images + [image]) ==
            if Mentions(images, image.asset) then FirstAppearances(images) else FirstAppearances(images) + [image]
    ensures Consistent(images + [image]) <==>
            Consistent(images) && forall r | r in images && r.asset == image.asset :: r.alt == image.alt
  {
    var all := images + [image];
    assert all[..|images|] == images;
    FirstAppearancesMembers(images);
    if Consistent(all) {
      forall i, j | 0 <= i < j < |images| && images[i].asset == images[j].asset ensures images[i].alt == images[j].alt {
        assert all[i].asset == all[j].asset;
      }
      forall r | r in images && r.asset == image.asset ensures r.alt == image.alt {
        var i :| 0 <= i < |images| && images[i] == r;
        assert all[i].asset == all[|images|].asset;
      }
    }
  }

  /** The next image: a repetition, a contradiction, or a new reference. */
  lemma NextImage(images: seq<Reference>, image: Reference)
    requires Consistent(images)
    ensures var refs := FirstAppearances(images);
            if Mentions(refs, image.asset)
            then FirstAppearances(images + [image]) == refs &&
                 forall r | r in refs && r.asset == image.asset :: Consistent(images + [image]) <==> r.alt == image.alt
            else Consistent(images + [image]) && FirstAppearances(images + [image]) == refs + [image]
  {
    var refs := FirstAppearances(images);
    Extends(images, image);
    FirstAppearancesMembers(images);
    forall r | r in refs && r.asset == image.asset ensures Consistent(images + [image]) <==> r.alt == image.alt {
      if r.alt == image.alt { SameAgain(images, r, image); }
    }
  }

  /** The walk's state after `k` images. */
  ghost predicate Walked(images: seq<Reference>, k: nat, refs: seq<Reference>, byAsset: map<string, nat>)
    requires k <= |images|
  {
    && Consistent(images[..k]) && refs == FirstAppearances(images[..k])
    && (forall a | a in byAsset :: byAsset[a] < |refs| && refs[byAsset[a]].asset == a)
    && (forall r | r in refs :: r.asset in byAsset)
  }

  lemma WalkNew(images: seq<Reference>, k: nat, refs: seq<Reference>, byAsset: map<string, nat>)
    requires k < |images| && Walked(images, k, refs, byAsset) && images[k].asset !in byAsset
    ensures Walked(images, k + 1, refs + [images[k]], byAsset[images[k].asset := |refs|])
  {
    NextImage(images[..k], images[k]);
    assert images[..k + 1] == images[..k] + [images[k]];
  }

  lemma WalkAgain(images: seq<Reference>, k: nat, refs: seq<Reference>, byAsset: map<string, nat>)
    requires k < |images| && Walked(images, k, refs, byAsset) && images[k].asset in byAsset
    ensures byAsset[images[k].asset] < |refs|
    ensures if refs[byAsset[images[k].asset]].alt == images[k].alt then Walked(images, k + 1, refs, byAsset)
            else !Consistent(images)
  {
    var image := images[k];
    NextImage(images[..k], image);
    assert images[..k + 1] == images[..k] + [image];
    var known := refs[byAsset[image.asset]];
    assert known in refs && Mentions(refs, image.asset);
    if known.alt != image.alt { InconsistentPrefix(images, k + 1); }
  }

  lemma InconsistentPrefix(images: seq<Reference>, n: nat)
    requires n <= |images| && !Consistent(images[..n])
    ensures !Consistent(images)
  {
    var i, j :| 0 <= i < j < n && images[..n][i].asset == images[..n][j].asset &&
      images[..n][i].alt != images[..n][j].alt;
    assert images[i].asset == images[j].asset;
  }

  lemma SameAgain(images: seq<Reference>, known: Reference, image: Reference)
    requires Consistent(images) && known in images && known.asset == image.asset && known.alt == image.alt
    ensures Consistent(images + [image])
  {
    var i :| 0 <= i < |images| && images[i] == known;
    var all := images + [image];
    forall j | 0 <= j < |images| && images[j].asset == image.asset ensures images[j].alt == image.alt {
      if i < j { assert images[i].alt == images[j].alt; } else if j < i { assert images[j].alt == images[i].alt; }
    }
  }

  /** The same asset again with the same text adds nothing; with another text it is refused. */
  method CollectReferences(images: seq<Reference>) returns (result: Option<seq<Reference>>)
    ensures result == if Consistent(images) then Some(FirstAppearances(images)) else None
    ensures result.None? <==> exists i, j | 0 <= i < j < |images| ::
                                images[i].asset == images[j].asset && images[i].alt != images[j].alt
  {
    var references: seq<Reference> := [];
    var byAsset: map<string, nat> := map[];
    for k := 0 to |images|
      invariant Walked(images, k, references, byAsset)
    {
      var image := images[k];
      if image.asset in byAsset {
        WalkAgain(images, k, references, byAsset);
        if references[byAsset[image.asset]].alt != image.alt { return None; }
        continue;
      }
      WalkNew(images, k, references, byAsset);
      byAsset := byAsset[image.asset := |references|];
      references := references + [image];
    }
    assert images[..|images|] == images;
    return Some(references);
  }

  // ---------------------------------------------------------------- the rows of article_media

  /** The rows one article owns: its primary key leaves one text per asset. */
  function AltTexts(refs: seq<Reference>): (rows: map<string, string>)
    ensures forall a :: a in rows <==> Mentions(refs, a)
  {
    if refs == [] then map[]
    else AltTexts(refs[..|refs| - 1])[refs[|refs| - 1].asset := refs[|refs| - 1].alt]
  }

  lemma DistinctSplit(front: seq<Reference>, last: Reference)
    requires DistinctAssets(front + [last])
    ensures DistinctAssets(front) && !Mentions(front, last.asset)
  {
    var all := front + [last];
    forall i, j | 0 <= i < j < |front| ensures front[i].asset != front[j].asset { assert all[i].asset != all[j].asset; }
    forall r | r in front ensures r.asset != last.asset {
      var i :| 0 <= i < |front| && front[i] == r;
      assert all[i].asset != all[|front|].asset;
    }
  }

  lemma {:induction false} AltTextsOf(refs: seq<Reference>)
    requires DistinctAssets(refs)
    ensures forall r | r in refs :: r.asset in AltTexts(refs) && AltTexts(refs)[r.asset] == r.alt
  {
    if refs != [] {
      var front, last := refs[..|refs| - 1], refs[|refs| - 1];
      assert refs == front + [last];
      DistinctSplit(front, last);
      AltTextsOf(front);
    }
  }

  lemma SameAlt(images: seq<Reference>, p: Reference, q: Reference)
    requires Consistent(images) && p in images && q in images && p.asset == q.asset
    ensures p == q
  {
    var i :| 0 <= i < |images| && images[i] == p;
    var j :| 0 <= j < |images| && images[j] == q;
    if i < j { assert images[i].alt == images[j].alt; } else if j < i { assert images[j].alt == images[i].alt; }
  }

  /** For a consistent body, the stored rows are the asset and text of every image it shows. */
  lemma RowsAreTheImages(images: seq<Reference>)
    requires Consistent(images)
    ensures var rows := AltTexts(FirstAppearances(images));
            && (forall r | r in images :: r.asset in rows && rows[r.asset] == r.alt)
            && (forall a | a in rows :: Reference(a, rows[a]) in images)
  {
    var refs := FirstAppearances(images);
    FirstAppearancesMembers(images);
    FirstAppearancesOrder(images);
    AltTextsOf(refs);
    forall r | r in images ensures r.asset in AltTexts(refs) && AltTexts(refs)[r.asset] == r.alt {
      assert Mentions(images, r.asset);
      var q :| q in refs && q.asset == r.asset;
      SameAlt(images, q, r);
    }
    forall a | a in AltTexts(refs) ensures Reference(a, AltTexts(refs)[a]) in images {
      var q :| q in refs && q.asset == a;
    }
  }
}
