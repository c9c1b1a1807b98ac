/**
  Joining a list of strings with a separator, with the semantics of Go's
  `strings.Join`: no parts give the empty string, one part gives that part
  unchanged, and n parts are written with exactly n - 1 separators between
  them and none before or after.
 */
module Join {

  /** The sum of the lengths of the parts. */
  function TotalLength(parts: seq<string>): nat
  {
    if |parts| == 0 then 0 else |parts[0]| + TotalLength(parts[1..])
  }

  /** `parts[0] + sep + parts[1] + sep + ... + parts[n-1]`. */
  function Join(parts: seq<string>, sep: string): (r: string)
    ensures |parts| == 0 ==> r == ""
    ensures |parts| > 0 ==> |r| == TotalLength(parts) + |sep| * (|parts| - 1)
  {
    if |parts| == 0 then ""
    else if |parts| == 1 then parts[0]
    else parts[0] + sep + Join(parts[1..], sep)
  }

  /** Where part `i` starts in the joined string: the earlier parts and one separator after each. */
  function Offset(parts: seq<string>, sep: string, i: nat): nat
    requires i <= |parts|
  {
    TotalLength(parts[..i]) + i * |sep|
  }

  lemma {:induction false} OffsetStep(parts: seq<string>, sep: string, i: nat)
    requires 0 < i <= |parts|
    ensures Offset(parts, sep, i) == |parts[0]| + |sep| + Offset(parts[1..], sep, i - 1)
  {
    assert parts[..i][0] == parts[0];
    assert parts[..i][1..] == parts[1..][..i - 1];
  }

  /** Part `i` of `parts` sits in `r` at `Offset(i)`. */
  predicate PartAt(r: string, parts: seq<string>, sep: string, i: nat)
    requires i < |parts|
  {
    var o := Offset(parts, sep, i);
    o + |parts[i]| <= |r| && r[o..o + |parts[i]|] == parts[i]
  }

  /** Exactly one separator fills the gap between part `i` and part `i + 1` in `r`. */
  predicate SepAfter(r: string, parts: seq<string>, sep: string, i: nat)
    requires i + 1 < |parts|
  {
    var o := Offset(parts, sep, i) + |parts[i]|;
    var o' := Offset(parts, sep, i + 1);
    o <= o' <= |r| && r[o..o'] == sep
  }

  /**
    The exact layout of a joined string: part `i` sits at `Offset(i)`,
    and between part `i` and part `i + 1` there is exactly one copy of the
    separator. Together with the length this pins the result down.
   */
  lemma {:induction false} JoinLayout(parts: seq<string>, sep: string)
    requires |parts| > 0
    ensures |Join(parts, sep)| == Offset(parts, sep, |parts| - 1) + |parts[|parts| - 1]|
    ensures forall i :: 0 <= i < |parts| ==> PartAt(Join(parts, sep), parts, sep, i)
    ensures forall i :: 0 <= i < |parts| - 1 ==> SepAfter(Join(parts, sep), parts, sep, i)
  {
    var r := Join(parts, sep);
    var n := |parts|;
    if n == 1 {
      assert parts[..0] == [];
      assert PartAt(r, parts, sep, 0);
    } else {
      var tail := parts[1..];
      var rest := Join(tail, sep);
      var head := |parts[0]| + |sep|;
      assert r == parts[0] + sep + rest;
      JoinLayout(tail, sep);
      OffsetStep(parts, sep, n - 1);
      forall i | 0 <= i < n
        ensures PartAt(r, parts, sep, i)
      {
        PartAtShift(parts, sep, i);
      }
      forall i | 0 <= i < n - 1
        ensures SepAfter(r, parts, sep, i)
      {
        SepAfterShift(parts, sep, i);
      }
    }
  }

  lemma {:induction false} PartAtShift(parts: seq<string>, sep: string, i: nat)
    requires 1 < |parts| && i < |parts|
    requires forall j :: 0 <= j < |parts| - 1 ==> PartAt(Join(parts[1..], sep), parts[1..], sep, j)
    ensures PartAt(Join(parts, sep), parts, sep, i)
  {
    var tail := parts[1..];
    var rest := Join(tail, sep);
    var r := Join(parts, sep);
    var head := |parts[0]| + |sep|;
    assert r == parts[0] + sep + rest;
    if i == 0 {
      assert parts[..0] == [];
    } else {
      OffsetStep(parts, sep, i);
      assert PartAt(rest, tail, sep, i - 1);
      var o := Offset(tail, sep, i - 1);
      assert r[head + o..head + o + |parts[i]|] == rest[o..o + |tail[i - 1]|];
    }
  }

  lemma {:induction false} SepAfterShift(parts: seq<string>, sep: string, i: nat)
    requires 1 < |parts| && i + 1 < |parts|
    requires forall j :: 0 <= j < |parts| - 2 ==> SepAfter(Join(parts[1..], sep), parts[1..], sep, j)
    requires |Join(parts[1..], sep)| == Offset(parts[1..], sep, |parts| - 2) + |parts[|parts| - 1]|
    ensures SepAfter(Join(parts, sep), parts, sep, i)
  {
    var tail := parts[1..];
    var rest := Join(tail, sep);
    var r := Join(parts, sep);
    var head := |parts[0]| + |sep|;
    assert r == parts[0] + sep + rest;
    OffsetStep(parts, sep, i + 1);
    if i == 0 {
      assert parts[..0] == [];
      assert tail[..0] == [];
      assert Offset(tail, sep, 0) == 0;
      assert r[|parts[0]|..head] == sep;
    } else {
      OffsetStep(parts, sep, i);
      assert SepAfter(rest, tail, sep, i - 1);
      var o := Offset(tail, sep, i - 1) + |tail[i - 1]|;
      var o' := Offset(tail, sep, i);
      assert r[head + o..head + o'] == rest[o..o'];
    }
  }

  /**
    Appending one more part adds one separator and the part at the end;
    this is how Go's `strings.Join` builds its result, left to right.
   */
  lemma {:induction false} JoinSnoc(parts: seq<string>, sep: string, x: string)
    requires |parts| > 0
    ensures Join(parts + [x], sep) == Join(parts, sep) + sep + x
  {
    if |parts| == 1 {
      assert parts + [x] == [parts[0], x];
      assert [parts[0], x][1..] == [x];
    } else {
      assert (parts + [x])[1..] == parts[1..] + [x];
      JoinSnoc(parts[1..], sep, x);
    }
  }

  /** Joining two non-empty lists joins their joins with one separator. */
  lemma {:induction false} JoinAppend(a: seq<string>, b: seq<string>, sep: string)
    requires |a| > 0 && |b| > 0
    ensures Join(a + b, sep) == Join(a, sep) + sep + Join(b, sep)
  {
    if |a| == 1 {
      assert (a + b)[1..] == b;
    } else {
      assert (a + b)[1..] == a[1..] + b;
      JoinAppend(a[1..], b, sep);
    }
  }
}
