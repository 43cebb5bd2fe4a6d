/** `compareVersions` from background.js and the `onUpdate` migration gate
    that uses it. A version string is split on '.', each part goes through
    `Number(part) || 0`, and the parts are compared left to right with
    missing parts read as 0. */
module Versions {
  import opened Strings

  /** `Number(part) || 0` for the parts this model admits: after trimming,
      a run of decimal digits has its decimal value (the empty run is 0);
      everything else is NaN, which `|| 0` turns into 0. */
  function ComponentValue(part: string): nat
  {
    var t := Trim(part);
    if AllDigits(t) then DecimalValue(t) else 0
  }

  /** `version.split('.').map(Number)`, with `|| 0` already applied. */
  function VersionParts(version: string): (parts: seq<nat>)
    ensures |parts| == |Split(version, '.')| && |parts| >= 1
  {
    Components(Split(version, '.'))
  }

  /** `Number(piece) || 0` for each piece. */
  function Components(pieces: seq<string>): (parts: seq<nat>)
    ensures |parts| == |pieces|
    ensures forall i :: 0 <= i < |pieces| ==> parts[i] == ComponentValue(pieces[i])
  {
    MapSeq(ComponentValue, pieces)
  }

  /** `Array.prototype.map` with a function of the element alone. */
  function MapSeq<A, B>(f: A -> B, xs: seq<A>): (ys: seq<B>)
    ensures |ys| == |xs| && forall i :: 0 <= i < |xs| ==> ys[i] == f(xs[i])
  {
    seq(|xs|, i requires 0 <= i < |xs| => f(xs[i]))
  }

  lemma MapSeqAppend<A, B>(f: A -> B, xs: seq<A>, ys: seq<A>)
    ensures MapSeq(f, xs + ys) == MapSeq(f, xs) + MapSeq(f, ys)
  {
    var r, s := MapSeq(f, xs + ys), MapSeq(f, xs) + MapSeq(f, ys);
    forall i | 0 <= i < |r| ensures r[i] == s[i] {
      if i < |xs| {
        assert (xs + ys)[i] == xs[i];
      } else {
        assert (xs + ys)[i] == ys[i - |xs|];
      }
    }
  }

  lemma ComponentsAppend(a: seq<string>, b: seq<string>)
    ensures Components(a + b) == Components(a) + Components(b)
  {
    MapSeqAppend(ComponentValue, a, b);
  }

  /** `parts[i] || 0`: a missing part reads as 0. */
  function At(parts: seq<nat>, i: nat): nat
  {
    if i < |parts| then parts[i] else 0
  }

  function Max(a: nat, b: nat): nat { if a < b then b else a }

  /** The result of the comparison loop when it reaches index `i`: -1 or 1 at
      the first index from `i` on where the parts differ, 0 if none does. */
  function CompareFrom(a: seq<nat>, b: seq<nat>, i: nat): (r: int)
    ensures r == -1 || r == 0 || r == 1
    decreases Max(|a|, |b|) - i
  {
    if i >= Max(|a|, |b|) then 0
    else if At(a, i) < At(b, i) then -1
    else if At(a, i) > At(b, i) then 1
    else CompareFrom(a, b, i + 1)
  }

  /** `compareVersions` on already-split parts. */
  function Compare(a: seq<nat>, b: seq<nat>): int
  {
    CompareFrom(a, b, 0)
  }

  /** The loop of `compareVersions`, with its two early returns. */
  method CompareVersions(version1: string, version2: string) returns (r: int)
    ensures r == Compare(VersionParts(version1), VersionParts(version2))
    ensures r == -1 || r == 0 || r == 1
  {
    var v1parts := VersionParts(version1);
    var v2parts := VersionParts(version2);
    var i := 0;
    while i < Max(|v1parts|, |v2parts|)
      invariant 0 <= i <= Max(|v1parts|, |v2parts|)
      invariant CompareFrom(v1parts, v2parts, i) == Compare(v1parts, v2parts)
    {
      var v1part := At(v1parts, i);
      var v2part := At(v2parts, i);
      if v1part < v2part {
        return -1;
      }
      if v1part > v2part {
        return 1;
      }
      i := i + 1;
    }
    return 0;
  }

  /** No two parts differ at or after `i` exactly when the comparison from
      `i` gives 0; otherwise the first differing part decides. */
  lemma {:induction false} CompareFromCharacterization(a: seq<nat>, b: seq<nat>, i: nat, k: nat)
    requires i <= k
    requires forall j :: i <= j < k ==> At(a, j) == At(b, j)
    ensures At(a, k) != At(b, k) ==> CompareFrom(a, b, i) == if At(a, k) < At(b, k) then -1 else 1
    ensures (forall j :: k <= j ==> At(a, j) == At(b, j)) ==> CompareFrom(a, b, i) == 0
    decreases Max(|a|, |b|) - i
  {
    if i >= Max(|a|, |b|) {
      assert At(a, k) == 0 && At(b, k) == 0;
    } else if i < k {
      assert At(a, i) == At(b, i);
      CompareFromCharacterization(a, b, i + 1, k);
    } else if At(a, k) == At(b, k) {
      CompareFromCharacterization(a, b, i + 1, k + 1);
    }
  }

  /** The first differing part decides the comparison. */
  lemma FirstDifferenceDecides(a: seq<nat>, b: seq<nat>, k: nat)
    requires forall j :: 0 <= j < k ==> At(a, j) == At(b, j)
    requires At(a, k) != At(b, k)
    ensures Compare(a, b) == if At(a, k) < At(b, k) then -1 else 1
  {
    CompareFromCharacterization(a, b, 0, k);
  }

  /** Where two versions differ at all, they differ first at some index. */
  lemma {:induction false} LeastDifference(a: seq<nat>, b: seq<nat>, k: nat) returns (m: nat)
    requires At(a, k) != At(b, k)
    ensures m <= k && At(a, m) != At(b, m)
    ensures forall j :: 0 <= j < m ==> At(a, j) == At(b, j)
    decreases k
  {
    if exists j :: 0 <= j < k && At(a, j) != At(b, j) {
      var j :| 0 <= j < k && At(a, j) != At(b, j);
      m := LeastDifference(a, b, j);
    } else {
      m := k;
    }
  }

  /** Two versions compare equal exactly when every part, with missing parts
      read as 0, is the same. */
  lemma CompareZeroIff(a: seq<nat>, b: seq<nat>)
    ensures Compare(a, b) == 0 <==> forall j: nat :: At(a, j) == At(b, j)
  {
    if forall j: nat :: At(a, j) == At(b, j) {
      CompareFromCharacterization(a, b, 0, 0);
    } else {
      var k: nat :| At(a, k) != At(b, k);
      var m := LeastDifference(a, b, k);
      FirstDifferenceDecides(a, b, m);
    }
  }

  /** Every version equals itself. */
  lemma {:induction false} CompareReflexive(a: seq<nat>)
    ensures Compare(a, a) == 0
  {
    CompareFromCharacterization(a, a, 0, 0);
  }

  /** Swapping the arguments negates the result. */
  lemma {:induction false} CompareAntisymmetric(a: seq<nat>, b: seq<nat>, i: nat)
    ensures CompareFrom(a, b, i) == -CompareFrom(b, a, i)
    decreases Max(|a|, |b|) - i
  {
    if i < Max(|a|, |b|) && At(a, i) == At(b, i) {
      CompareAntisymmetric(a, b, i + 1);
    }
  }

  lemma DigitComponent(c: char)
    requires IsDigit(c)
    ensures ComponentValue([c]) == c as int - '0' as int
  {
    assert !IsSpace(c);
    assert TrimStart([c]) == [c];
    assert TrimEnd([c]) == [c];
    assert Trim([c]) == [c];
    assert AllDigits([c]);
    assert [c][..0] == [];
    assert DecimalValue([c]) == DecimalValue([]) * 10 + (c as int - '0' as int);
  }

  /** A one-digit version has that digit as its only part. */
  lemma DigitParts(c: char)
    requires IsDigit(c)
    ensures VersionParts([c]) == [c as int - '0' as int]
  {
    SplitNoSeparator([c], '.');
    DigitComponent(c);
    assert Components([[c]])[0] == ComponentValue([c]);
  }

  /** Appending '.' and a piece without '.' appends that piece's part. */
  lemma AppendPart(version: string, piece: string)
    requires '.' !in piece
    ensures VersionParts(version + ['.'] + piece) == VersionParts(version) + [ComponentValue(piece)]
  {
    SplitAppendPiece(version, '.', piece);
    ComponentsAppendOne(Split(version, '.'), piece);
  }

  lemma ComponentsAppendOne(pieces: seq<string>, piece: string)
    ensures Components(pieces + [piece]) == Components(pieces) + [ComponentValue(piece)]
  {
    ComponentsAppend(pieces, [piece]);
    assert Components([piece]) == [ComponentValue(piece)];
  }

  /** Appending ".0" appends a zero part. */
  lemma AppendZeroPart(version: string)
    ensures VersionParts(version + ".0") == VersionParts(version) + [0]
  {
    assert version + ".0" == version + ['.'] + ['0'];
    AppendPart(version, ['0']);
    DigitComponent('0');
  }

  /** Trailing ".0" parts do not change a version: "1", "1.0" and "1.0.0"
      are the same version, and so is any version with ".0" appended. */
  lemma TrailingZerosIgnored(version: string)
    ensures Compare(VersionParts(version), VersionParts(version + ".0")) == 0
    ensures Compare(VersionParts(version), VersionParts(version + ".0" + ".0")) == 0
  {
    var parts := VersionParts(version);
    AppendZeroPart(version);
    AppendZeroPart(version + ".0");
    forall j: nat ensures At(parts, j) == At(parts + [0], j) == At(parts + [0] + [0], j) {
      AtAppendZero(parts, j);
      AtAppendZero(parts + [0], j);
    }
    CompareZeroIff(parts, parts + [0]);
    CompareZeroIff(parts, parts + [0] + [0]);
  }

  /** A zero part at the end reads like a missing part. */
  lemma AtAppendZero(parts: seq<nat>, j: nat)
    ensures At(parts + [0], j) == At(parts, j)
  {
  }

  /** The version "1.0" of the migration test has the parts 1 and 0. */
  lemma PartsOfOneZero()
    ensures VersionParts("1.0") == [1, 0]
  {
    assert "1.0" == ['1'] + ['.'] + ['0'];
    AppendPart(['1'], ['0']);
    DigitComponent('0');
    DigitParts('1');
  }

  /** `onUpdate`: the migration to 1.0 runs exactly when the previous version
      compares below "1.0". */
  method OnUpdate(previousVersion: string) returns (migrates: bool)
    ensures migrates <==> Compare(VersionParts(previousVersion), [1, 0]) < 0
  {
    var c := CompareVersions(previousVersion, "1.0");
    PartsOfOneZero();
    migrates := c < 0;
  }

  /** A version is below "1.0" exactly when its first part reads as 0. */
  lemma MigrationIffMajorZero(parts: seq<nat>)
    ensures Compare(parts, [1, 0]) < 0 <==> At(parts, 0) == 0
  {
    if At(parts, 0) != 1 {
      FirstDifferenceDecides(parts, [1, 0], 0);
    } else if forall j: nat :: At(parts, j) == At([1, 0], j) {
      CompareZeroIff(parts, [1, 0]);
    } else {
      var k: nat :| At(parts, k) != At([1, 0], k);
      var m := LeastDifference(parts, [1, 0], k);
      FirstDifferenceDecides(parts, [1, 0], m);
    }
  }
}
