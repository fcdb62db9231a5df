/**
 * directions.go: the eight direction tags and the package-level `Directions` slice
 * that NewDirections rebuilds.
 */
module Directions {

  const L: string := "L"
  const R: string := "R"
  const T: string := "T"
  const B: string := "B"
  const TL: string := "TL"
  const TR: string := "TR"
  const BL: string := "BL"
  const BR: string := "BR"

  /** The eight tags in the order NewDirections appends them: left, then clockwise. */
  const Compass: seq<string> := [L, TL, T, TR, R, BR, B, BL]

  /** The eight tags are pairwise distinct, and each diagonal is its vertical letter then its horizontal one. */
  lemma CompassTags()
    ensures |Compass| == 8
    ensures forall i, j :: 0 <= i < j < |Compass| ==> Compass[i] != Compass[j]
    ensures TL == T + L && TR == T + R && BL == B + L && BR == B + R
  {
  }

  /** Holder of the package-level variable `Directions`. */
  class Registry {
    var Directions: seq<string>

    /** A Go package variable of slice type starts out nil, an empty slice. */
    constructor ()
      ensures Directions == []
    {
      Directions := [];
    }

    /**
     * NewDirections as written: `make([]string, 8)` already holds eight empty strings,
     * and the eight tags are appended after them. The slice it returns is the variable's value.
     */
    method NewDirections() returns (r: seq<string>)
      modifies this
      ensures r == Directions
      ensures |r| == 16
      ensures forall k :: 0 <= k < 8 ==> r[k] == ""
      ensures r[8..] == Compass
    {
      Directions := seq(8, _ => "");
      Directions := Directions + [L];
      Directions := Directions + [TL];
      Directions := Directions + [T];
      Directions := Directions + [TR];
      Directions := Directions + [R];
      Directions := Directions + [BR];
      Directions := Directions + [B];
      Directions := Directions + [BL];
      r := Directions;
    }

    /** NewDirections as evidently intended: `make([]string, 0, 8)`, so the slice holds exactly the eight tags. */
    method NewDirectionsIntended() returns (r: seq<string>)
      modifies this
      ensures r == Directions
      ensures r == Compass
      ensures forall k :: 0 <= k < |r| ==> r[k] != ""
    {
      Directions := [];
      Directions := Directions + [L];
      Directions := Directions + [TL];
      Directions := Directions + [T];
      Directions := Directions + [TR];
      Directions := Directions + [R];
      Directions := Directions + [BR];
      Directions := Directions + [B];
      Directions := Directions + [BL];
      r := Directions;
    }
  }
}
