/** Which directory entries the harness uses and removes: the images that go into
    the collage (`collage_all_images`) and the generated artifacts it deletes at
    the end (`delete_redundant_files`). The directory listing is an input. */
module Files {
  import opened Strings
  import opened Seqs

  /** The collage just written and the one it is compared against by eye. */
  const Reserved: seq<string> := ["collage.png", "collage_reference.png"]

  predicate IsReserved(name: string) {
    name in Reserved
  }

  /** Line 50: a `.png` image other than the two collages. */
  predicate IsCollageInput(name: string) {
    EndsWith(name, ".png") && !IsReserved(name)
  }

  /** Line 72: an image, G-code, JSON or STL file. */
  predicate IsArtifact(name: string) {
    EndsWith(name, ".png") || EndsWith(name, ".gcode") || EndsWith(name, ".json") || EndsWith(name, ".stl")
  }

  /** Line 74: an artifact that may be deleted, i.e. neither of the two collages. */
  predicate NotReserved(name: string) {
    !IsReserved(name)
  }

  /** The images for the collage, in listing order. */
  function CollageInputs(listing: seq<string>): (r: seq<string>)
    ensures forall i :: 0 <= i < |r| ==> r[i] in listing && IsCollageInput(r[i])
  {
    Filter(listing, IsCollageInput)
  }

  /** Line 72: the candidate files for deletion, in listing order. */
  function Artifacts(listing: seq<string>): (r: seq<string>)
    ensures forall i :: 0 <= i < |r| ==> r[i] in listing && IsArtifact(r[i])
  {
    Filter(listing, IsArtifact)
  }

  /** Lines 73-75: the names actually removed. */
  function Doomed(listing: seq<string>): (r: seq<string>)
    ensures forall i :: 0 <= i < |r| ==> r[i] in listing && IsArtifact(r[i]) && !IsReserved(r[i])
  {
    Filter(Artifacts(listing), NotReserved)
  }

  /** The removed names are exactly the listed artifacts other than the two collages. */
  lemma DoomedExact(listing: seq<string>, name: string)
    ensures name in Doomed(listing) <==> name in listing && IsArtifact(name) && !IsReserved(name)
  {
    if name in listing && IsArtifact(name) && !IsReserved(name) {
      var i :| 0 <= i < |listing| && listing[i] == name;
      assert name in Artifacts(listing);
      var j :| 0 <= j < |Artifacts(listing)| && Artifacts(listing)[j] == name;
    }
    if name in Doomed(listing) {
      var j :| 0 <= j < |Doomed(listing)| && Doomed(listing)[j] == name;
      assert name in Artifacts(listing);
      var i :| 0 <= i < |Artifacts(listing)| && Artifacts(listing)[i] == name;
    }
  }

  /** The collages are never removed, although both are `.png` artifacts. */
  lemma ReservedNeverDoomed(listing: seq<string>)
    ensures forall k :: 0 <= k < |Reserved| ==> IsArtifact(Reserved[k]) && Reserved[k] !in Doomed(listing)
  {
    forall k | 0 <= k < |Reserved| ensures IsArtifact(Reserved[k]) && Reserved[k] !in Doomed(listing) {
      assert EndsWith(Reserved[k], ".png");
      DoomedExact(listing, Reserved[k]);
    }
  }

  /** Every image put into the collage is removed afterwards, and the collage
      inputs are exactly the listed `.png` names other than the two collages. */
  lemma CollageInputsDoomed(listing: seq<string>, name: string)
    ensures name in CollageInputs(listing) <==> name in listing && EndsWith(name, ".png") && !IsReserved(name)
    ensures name in CollageInputs(listing) ==> name in Doomed(listing)
  {
    if name in CollageInputs(listing) {
      var j :| 0 <= j < |CollageInputs(listing)| && CollageInputs(listing)[j] == name;
    }
    if name in listing && IsCollageInput(name) {
      var i :| 0 <= i < |listing| && listing[i] == name;
    }
    DoomedExact(listing, name);
  }

  /** The names the deletion loop removes, by their position among the artifacts. */
  lemma DoomedAsIndices(listing: seq<string>)
    ensures (set name | name in Doomed(listing)) ==
            (set k | 0 <= k < |Artifacts(listing)| && NotReserved(Artifacts(listing)[k]) :: Artifacts(listing)[k])
  {
    var temp := Artifacts(listing);
    forall name ensures name in Doomed(listing) <==> exists k :: 0 <= k < |temp| && NotReserved(temp[k]) && temp[k] == name {
      if name in Doomed(listing) {
        var j :| 0 <= j < |Doomed(listing)| && Doomed(listing)[j] == name;
        assert name in temp;
        var k :| 0 <= k < |temp| && temp[k] == name;
      }
    }
  }

  /** The directory `before` once the listed artifacts are deleted. */
  function Remaining(before: set<string>, listing: seq<string>): (r: set<string>)
    ensures r <= before
    ensures forall name :: name in before && name !in r ==> name in Doomed(listing)
  {
    before - set name | name in Doomed(listing)
  }

  /** After the deletion no artifact is left except the collages, every other
      name is still there, and a collage that was there still is. */
  lemma RemainingSafe(before: set<string>, listing: seq<string>)
    requires forall name :: name in listing <==> name in before
    ensures forall name :: name in Remaining(before, listing) ==> !IsArtifact(name) || IsReserved(name)
    ensures forall name :: name in before && !IsArtifact(name) ==> name in Remaining(before, listing)
    ensures forall k :: 0 <= k < |Reserved| && Reserved[k] in before ==> Reserved[k] in Remaining(before, listing)
  {
    forall name | name in before
      ensures name in Remaining(before, listing) <==> !IsArtifact(name) || IsReserved(name)
    {
      DoomedExact(listing, name);
    }
    ReservedNeverDoomed(listing);
  }

  /** The working directory, as the set of names it holds. */
  class Directory {
    var files: set<string>

    constructor (names: set<string>)
      ensures files == names
    {
      files := names;
    }

    /** Lines 71-75: remove every listed artifact except the two collages.
        `listing` is what `os.listdir` returned for this directory. */
    method DeleteRedundantFiles(listing: seq<string>)
      requires forall name :: name in listing <==> name in files
      modifies this
      ensures files == Remaining(old(files), listing)
    {
      var temp := Artifacts(listing);
      for i := 0 to |temp|
        invariant files == old(files) - set k | 0 <= k < i && NotReserved(temp[k]) :: temp[k]
      {
        if !IsReserved(temp[i]) {
          files := files - {temp[i]};
        }
      }
      DoomedAsIndices(listing);
    }
  }
}
