// The pLDDT confidence bands of `get_confidence_regions` (alpha.py:106-126).
// AlphaFold stores its per-residue confidence in the temperature-factor
// column; the analyzer sorts every atom's residue number into one of four
// bands by strict thresholds at 90, 70 and 50.

module Confidence {
  import opened PyText
  import opened AtomRecord

  datatype Band = VeryHigh | High | Low | VeryLow

  /** The dictionary key under which a band's residue numbers are kept. */
  function Label(b: Band): string {
    match b
    case VeryHigh => "Very High (>90)"
    case High => "High (70-90)"
    case Low => "Low (50-70)"
    case VeryLow => "Very Low (<50)"
  }

  /** The four keys are different strings. */
  lemma LabelsDistinct()
    ensures forall b: Band, c: Band :: Label(b) == Label(c) ==> b == c
  {
    forall b: Band, c: Band | b != c ensures Label(b) != Label(c) {
      assert |Label(b)| != |Label(c)|;
    }
  }

  /** The `if`/`elif` chain on the confidence value. */
  function Classify(conf: Decimal): Band {
    if Exceeds(conf, 90) then VeryHigh
    else if Exceeds(conf, 70) then High
    else if Exceeds(conf, 50) then Low
    else VeryLow
  }

  /** Each band is an interval of confidence values, open below and closed above. */
  lemma ClassifyBands(conf: Decimal)
    ensures var b := Classify(conf);
            && (b == VeryHigh <==> ValueOf(conf) > 90.0)
            && (b == High <==> 70.0 < ValueOf(conf) <= 90.0)
            && (b == Low <==> 50.0 < ValueOf(conf) <= 70.0)
            && (b == VeryLow <==> ValueOf(conf) <= 50.0)
  {
    ExceedsValue(conf, 90);
    ExceedsValue(conf, 70);
    ExceedsValue(conf, 50);
  }

  /** The residue numbers appended to band `b`'s list, in atom order. */
  function BandResidues(atoms: seq<Atom>, b: Band): (r: seq<int>)
    ensures |r| <= |atoms|
  {
    if |atoms| == 0 then []
    else
      var init := BandResidues(atoms[..|atoms| - 1], b);
      var last := atoms[|atoms| - 1];
      if Classify(last.confidence) == b then init + [last.resNum] else init
  }

  /** The residue number of every atom, in order. */
  function ResidueNumbers(atoms: seq<Atom>): (r: seq<int>)
    ensures |r| == |atoms|
  {
    seq(|atoms|, k requires 0 <= k < |atoms| => atoms[k].resNum)
  }

  /** What `get_confidence_regions` returns: all four keys, present even when
      there are no atoms. */
  function Regions(atoms: seq<Atom>): (m: map<string, seq<int>>)
    ensures forall b: Band :: Label(b) in m && m[Label(b)] == BandResidues(atoms, b)
    ensures forall key :: key in m ==> exists b: Band :: key == Label(b)
  {
    map[Label(VeryHigh) := BandResidues(atoms, VeryHigh),
        Label(High) := BandResidues(atoms, High),
        Label(Low) := BandResidues(atoms, Low),
        Label(VeryLow) := BandResidues(atoms, VeryLow)]
  }

  /** The bands are filled atom by atom, so the lists of a concatenation are
      the concatenated lists: the order of the atoms is kept within a band. */
  lemma {:induction false} BandResiduesAppend(a: seq<Atom>, c: seq<Atom>, b: Band)
    ensures BandResidues(a + c, b) == BandResidues(a, b) + BandResidues(c, b)
    decreases |c|
  {
    if |c| == 0 {
      assert a + c == a;
    } else {
      var c', last := c[..|c| - 1], c[|c| - 1];
      BandResiduesAppend(a, c', b);
      assert (a + c)[..|a + c| - 1] == a + c' && (a + c)[|a + c| - 1] == last;
      if Classify(last.confidence) == b {
        assert BandResidues(a + c, b) == BandResidues(a + c', b) + [last.resNum];
        assert BandResidues(c, b) == BandResidues(c', b) + [last.resNum];
      } else {
        assert BandResidues(a + c, b) == BandResidues(a + c', b);
        assert BandResidues(c, b) == BandResidues(c', b);
      }
    }
  }

  /** A residue number is in a band's list exactly when some atom with that
      number has a confidence in the band. */
  lemma {:induction false} BandResiduesMembers(atoms: seq<Atom>, b: Band, n: int)
    ensures n in BandResidues(atoms, b) <==>
            exists k :: 0 <= k < |atoms| && atoms[k].resNum == n && Classify(atoms[k].confidence) == b
  {
    if |atoms| > 0 {
      var init := atoms[..|atoms| - 1];
      BandResiduesMembers(init, b, n);
      if exists k :: 0 <= k < |atoms| && atoms[k].resNum == n && Classify(atoms[k].confidence) == b {
        var k :| 0 <= k < |atoms| && atoms[k].resNum == n && Classify(atoms[k].confidence) == b;
        if k < |init| {
          assert init[k] == atoms[k];
        }
      }
      if n in BandResidues(init, b) {
        var k :| 0 <= k < |init| && init[k].resNum == n && Classify(init[k].confidence) == b;
        assert atoms[k] == init[k];
      }
    }
  }

  /** Every atom lands in exactly one band: together the four lists hold each
      atom's residue number once. */
  lemma {:induction false} BandsPartition(atoms: seq<Atom>)
    ensures multiset(BandResidues(atoms, VeryHigh)) + multiset(BandResidues(atoms, High))
          + multiset(BandResidues(atoms, Low)) + multiset(BandResidues(atoms, VeryLow))
         == multiset(ResidueNumbers(atoms))
  {
    if |atoms| > 0 {
      var init, last := atoms[..|atoms| - 1], atoms[|atoms| - 1];
      BandsPartition(init);
      assert ResidueNumbers(atoms) == ResidueNumbers(init) + [last.resNum];
      var band := Classify(last.confidence);
      forall b: Band
        ensures multiset(BandResidues(atoms, b))
             == multiset(BandResidues(init, b)) + if b == band then multiset{last.resNum} else multiset{}
      {
      }
    }
  }

  /** The four list lengths add up to the number of atoms. */
  lemma BandsCount(atoms: seq<Atom>)
    ensures |BandResidues(atoms, VeryHigh)| + |BandResidues(atoms, High)|
          + |BandResidues(atoms, Low)| + |BandResidues(atoms, VeryLow)| == |atoms|
  {
    BandsPartition(atoms);
    var vh, h, l, vl := BandResidues(atoms, VeryHigh), BandResidues(atoms, High), BandResidues(atoms, Low), BandResidues(atoms, VeryLow);
    assert |multiset(vh) + multiset(h) + multiset(l) + multiset(vl)| == |multiset(ResidueNumbers(atoms))|;
  }

  /** One more atom appends its residue number to its own band's list and
      leaves the other three lists alone. */
  lemma RegionsStep(atoms: seq<Atom>, i: nat)
    requires i < |atoms|
    ensures var b := Classify(atoms[i].confidence);
            Regions(atoms[..i + 1]) == Regions(atoms[..i])[Label(b) := Regions(atoms[..i])[Label(b)] + [atoms[i].resNum]]
  {
    assert atoms[..i + 1][..i] == atoms[..i];
  }
}
