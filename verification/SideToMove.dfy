/** Which side the review analyses at a node (review.js, `reviewOneStep`, the
    `for (let prop of ['B', 'W', 'AB', 'AW'])` loop and the colour chosen from it). */
module SideToMove {
  import opened GameTree

  /** The move and setup properties, in the order the review inspects them. */
  const MoveProperties: seq<string> := ["B", "W", "AB", "AW"]

  /** `prop.slice(-1) === 'B' ? 1 : -1`: black properties give 1, the others -1. */
  function PropertySign(prop: string): (s: int)
    ensures s == 1 <==> |prop| > 0 && prop[|prop| - 1] == 'B'
    ensures s == 1 || s == -1
  {
    if |prop| > 0 && prop[|prop| - 1] == 'B' then 1 else -1
  }

  /** The sign a scan over `names` leaves when every present property overwrites it:
      decided by the last name of `names` that `data` holds, 0 when it holds none. */
  function LastPresentSign(data: Props, names: seq<string>): int
    decreases |names|
  {
    if names == [] then 0
    else if names[|names| - 1] in data then PropertySign(names[|names| - 1])
    else LastPresentSign(data, names[..|names| - 1])
  }

  /** The sign of the side to move at a node with properties `data`. */
  function SideSign(data: Props): int {
    LastPresentSign(data, MoveProperties)
  }

  /** The sign is 0 exactly when none of the names is present; otherwise it is the
      sign of a present name after which no name is present. */
  lemma {:induction false} LastPresentSignSpec(data: Props, names: seq<string>)
    ensures LastPresentSign(data, names) == 0 <==> forall i :: 0 <= i < |names| ==> names[i] !in data
    ensures LastPresentSign(data, names) != 0 ==>
      exists i :: 0 <= i < |names| && names[i] in data
        && LastPresentSign(data, names) == PropertySign(names[i])
        && forall j :: i < j < |names| ==> names[j] !in data
    decreases |names|
  {
    if names != [] {
      var n := |names| - 1;
      var init := names[..n];
      if names[n] !in data {
        assert LastPresentSign(data, names) == LastPresentSign(data, init);
        LastPresentSignSpec(data, init);
        assert forall i :: 0 <= i < n ==> init[i] == names[i];
        if LastPresentSign(data, init) != 0 {
          var i :| 0 <= i < |init| && init[i] in data
            && LastPresentSign(data, init) == PropertySign(init[i])
            && forall j :: i < j < |init| ==> init[j] !in data;
          assert names[i] == init[i];
        }
      } else {
        var s := LastPresentSign(data, names);
        assert s == PropertySign(names[n]) && s != 0;
        assert !(forall i :: 0 <= i < |names| ==> names[i] !in data);
      }
    }
  }

  /** The later of the properties in the order B, W, AB, AW wins. */
  lemma SideSignCases(data: Props)
    ensures SideSign(data) == if "AW" in data then -1
                              else if "AB" in data then 1
                              else if "W" in data then -1
                              else if "B" in data then 1
                              else 0
  {
    var m3: seq<string> := ["B", "W", "AB"];
    var m2: seq<string> := ["B", "W"];
    var m1: seq<string> := ["B"];
    assert MoveProperties[..3] == m3 && m3[..2] == m2 && m2[..1] == m1 && m1[..0] == [];
    assert PropertySign("AW") == -1 && PropertySign("AB") == 1;
    assert PropertySign("W") == -1 && PropertySign("B") == 1;
    assert SideSign(data) == if "AW" in data then -1 else LastPresentSign(data, m3);
    assert LastPresentSign(data, m3) == if "AB" in data then 1 else LastPresentSign(data, m2);
    assert LastPresentSign(data, m2) == if "W" in data then -1 else LastPresentSign(data, m1);
    assert LastPresentSign(data, m1) == if "B" in data then 1 else 0;
  }

  /** The loop at review.js:103-107: `sign` starts at 0 and each present property
      among B, W, AB, AW overwrites it with that property's sign. */
  method ComputeSign(data: Props) returns (sign: int)
    ensures sign == SideSign(data)
    ensures sign == if "AW" in data then -1
                    else if "AB" in data then 1
                    else if "W" in data then -1
                    else if "B" in data then 1
                    else 0
  {
    sign := 0;
    for i := 0 to |MoveProperties|
      invariant sign == LastPresentSign(data, MoveProperties[..i])
    {
      var prop := MoveProperties[i];
      assert MoveProperties[..i + 1][..i] == MoveProperties[..i];
      if prop !in data {
        continue;
      }
      sign := if prop[|prop| - 1] == 'B' then 1 else -1;
    }
    assert MoveProperties[..|MoveProperties|] == MoveProperties;
    SideSignCases(data);
  }

  /** `sign == 1 ? "B" : "W"`: the colour passed to `lz-analyze`. */
  function ColorOf(sign: int): (color: string)
    ensures color == "B" <==> sign == 1
    ensures color == "W" <==> sign != 1
  {
    if sign == 1 then "B" else "W"
  }

  /** A node without B, W, AB or AW still gets a colour: the guard `color !== ""`
      never skips a node, and such a node is analysed for White. */
  lemma MovelessNodeIsAnalysedAsWhite(data: Props)
    requires forall i :: 0 <= i < |MoveProperties| ==> MoveProperties[i] !in data
    ensures SideSign(data) == 0
    ensures ColorOf(SideSign(data)) == "W"
  {
    LastPresentSignSpec(data, MoveProperties);
  }
}
