/**
 * The projection list of lines 166 and 276: `Object.keys(...).join(',')` over the top-level
 * field names the request selected, and `split(',')` as its inverse.
 */
module Fields {

  function TotalLength(names: seq<string>): nat {
    if |names| == 0 then 0 else |names[0]| + TotalLength(names[1..])
  }

  /** `names.join(',')`: the names in order, one comma between neighbours. */
  function FlattenTopFields(names: seq<string>): (r: string)
    ensures names == [] ==> r == ""
    ensures |names| > 0 ==> |r| == TotalLength(names) + |names| - 1
    ensures |names| > 0 ==> r[..|names[0]|] == names[0]
  {
    if |names| == 0 then ""
    else if |names| == 1 then names[0]
    else names[0] + "," + FlattenTopFields(names[1..])
  }

  /** `s.split(',')`: the comma-free pieces between the commas, at least one. */
  function SplitFields(s: string): (parts: seq<string>)
    ensures |parts| >= 1
    ensures forall i :: 0 <= i < |parts| ==> ',' !in parts[i]
    decreases |s|
  {
    if |s| == 0 then [""]
    else
      var rest := SplitFields(s[1..]);
      if s[0] == ',' then [""] + rest
      else [[s[0]] + rest[0]] + rest[1..]
  }

  /** Splitting a comma-free prefix followed by more text. */
  lemma {:induction false} SplitCommaFreePrefix(x: string, t: string)
    requires ',' !in x
    ensures SplitFields(x + t) == [x + SplitFields(t)[0]] + SplitFields(t)[1..]
    decreases |x|
  {
    if |x| > 0 {
      assert (x + t)[1..] == x[1..] + t;
      SplitCommaFreePrefix(x[1..], t);
      assert [x[0]] + (x[1..] + SplitFields(t)[0]) == x + SplitFields(t)[0];
    } else {
      var parts := SplitFields(t);
      assert x + t == t && x + parts[0] == parts[0];
      assert parts == [parts[0]] + parts[1..];
    }
  }

  /**
   * The projection list gives the requested names back: field names never contain a comma,
   * so splitting the joined list at its commas recovers them, in order.
   */
  lemma {:induction false} SplitFlatten(names: seq<string>)
    requires |names| > 0
    requires forall i :: 0 <= i < |names| ==> ',' !in names[i]
    ensures SplitFields(FlattenTopFields(names)) == names
  {
    if |names| == 1 {
      SplitCommaFreePrefix(names[0], "");
      assert names[0] + "" == names[0];
    } else {
      var t := FlattenTopFields(names[1..]);
      SplitFlatten(names[1..]);
      SplitCommaFreePrefix(names[0], "," + t);
      assert ("," + t)[1..] == t;
      assert names[0] + "," + t == names[0] + ("," + t);
      assert SplitFields("," + t) == [""] + SplitFields(t);
      assert names[0] + "" == names[0];
      assert names == [names[0]] + names[1..];
    }
  }

  /** Joining the pieces of any text at commas gives the text back. */
  lemma {:induction false} FlattenSplit(s: string)
    ensures FlattenTopFields(SplitFields(s)) == s
    decreases |s|
  {
    if |s| > 0 {
      var rest := SplitFields(s[1..]);
      FlattenSplit(s[1..]);
      assert s == [s[0]] + s[1..];
      if s[0] == ',' {
        assert ([""] + rest)[1..] == rest;
      } else {
        var parts := [[s[0]] + rest[0]] + rest[1..];
        assert parts[1..] == rest[1..];
        if |rest| > 1 {
          assert rest == [rest[0]] + rest[1..];
          assert FlattenTopFields(rest) == rest[0] + "," + FlattenTopFields(rest[1..]);
        }
      }
    }
  }
}
