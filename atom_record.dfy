/**
  The fixed-column decoder for ATOM records (`ProteinAnalyzer._parse_atoms`
  in alpha.py) and its partner, a formatter that writes a record into the
  same columns.  Columns follow the ATOM record of the Coordinate Section
  of the wwPDB Atomic Coordinate Entry Format v3.3; AlphaFold stores its
  per-atom pLDDT confidence in the temperature-factor columns.
*/
module AtomRecord {
  import opened Wrappers
  import opened PyText

  /** One decoded ATOM line: the dictionary `_parse_atoms` builds. */
  datatype Atom = Atom(atomNum: int, atomName: string, residue: string, chain: char,
                       resNum: int, x: Decimal, y: Decimal, z: Decimal, confidence: Decimal)

  /** The numeric columns, named after the format's fields. */
  datatype NumericField = Serial | ResSeq | CoordX | CoordY | CoordZ | TempFactor

  /** Why an ATOM line could not be decoded: `int()` or `float()` rejected
      a column (`ValueError`), or the line has no column 22 for the chain
      identifier (`IndexError` from `line[21]`). */
  datatype RecordError = BadNumber(field: NumericField, text: string) | NoChainColumn

  const AtomMarker := "ATOM"

  function IntField(line: string, lo: nat, hi: nat, field: NumericField): Result<int, RecordError> {
    var text := Slice(line, lo, hi);
    match DecodeInt(text)
    case Some(v) => Success(v)
    case None => Failure(BadNumber(field, text))
  }

  function DecimalField(line: string, lo: nat, hi: nat, field: NumericField): Result<Decimal, RecordError> {
    var text := Slice(line, lo, hi);
    match DecodeDecimal(text)
    case Some(v) => Success(v)
    case None => Failure(BadNumber(field, text))
  }

  /** `line[21]`: indexing, unlike slicing, raises past the end. */
  function ChainField(line: string): Result<char, RecordError> {
    if 21 < |line| then Success(line[21]) else Failure(NoChainColumn)
  }

  /** Decodes one ATOM line, reading the columns in the order the Python
      dictionary display evaluates them, so the first bad column decides
      the error. */
  function DecodeAtom(line: string): (r: Result<Atom, RecordError>)
    ensures r.Success? ==> |line| > 60
  {
    var atomNum :- IntField(line, 6, 11, Serial);
    var atomName := Strip(Slice(line, 12, 16));
    var residue := Strip(Slice(line, 17, 20));
    var chain :- ChainField(line);
    var resNum :- IntField(line, 22, 26, ResSeq);
    var x :- DecimalField(line, 30, 38, CoordX);
    var y :- DecimalField(line, 38, 46, CoordY);
    var z :- DecimalField(line, 46, 54, CoordZ);
    var confidence :- DecimalField(line, 60, 66, TempFactor);
    Success(Atom(atomNum, atomName, residue, chain, resNum, x, y, z, confidence))
  }

  /** Every field of a decoded record comes from its fixed columns. */
  lemma DecodedColumns(line: string)
    requires DecodeAtom(line).Success?
    ensures var a := DecodeAtom(line).value;
            && DecodeInt(Slice(line, 6, 11)) == Some(a.atomNum)
            && a.atomName == Strip(Slice(line, 12, 16))
            && a.residue == Strip(Slice(line, 17, 20))
            && |line| > 21 && a.chain == line[21]
            && DecodeInt(Slice(line, 22, 26)) == Some(a.resNum)
            && DecodeDecimal(Slice(line, 30, 38)) == Some(a.x)
            && DecodeDecimal(Slice(line, 38, 46)) == Some(a.y)
            && DecodeDecimal(Slice(line, 46, 54)) == Some(a.z)
            && DecodeDecimal(Slice(line, 60, 66)) == Some(a.confidence)
  {
    var serial, chain, resSeq := IntField(line, 6, 11, Serial), ChainField(line), IntField(line, 22, 26, ResSeq);
    assert serial.Success? && chain.Success? && resSeq.Success?;
    var x, y := DecimalField(line, 30, 38, CoordX), DecimalField(line, 38, 46, CoordY);
    var z, t := DecimalField(line, 46, 54, CoordZ), DecimalField(line, 60, 66, TempFactor);
    assert x.Success? && y.Success? && z.Success? && t.Success?;
    assert DecodeAtom(line).value == Atom(serial.value, Strip(Slice(line, 12, 16)), Strip(Slice(line, 17, 20)),
                                          chain.value, resSeq.value, x.value, y.value, z.value, t.value);
  }

  /** A line decodes exactly when every column it reads is well formed. */
  lemma DecodeAtomFails(line: string)
    ensures DecodeAtom(line).Failure? <==>
              || DecodeInt(Slice(line, 6, 11)).None?
              || |line| <= 21
              || DecodeInt(Slice(line, 22, 26)).None?
              || DecodeDecimal(Slice(line, 30, 38)).None?
              || DecodeDecimal(Slice(line, 38, 46)).None?
              || DecodeDecimal(Slice(line, 46, 54)).None?
              || DecodeDecimal(Slice(line, 60, 66)).None?
  {
  }

  /** A line that ends before column 61 has an empty confidence field, so
      it always raises.  A line of 21 characters or fewer cannot even supply
      a chain identifier: it raises on the serial number when that column is
      malformed, which is read first, and otherwise on `line[21]`. */
  lemma {:induction false} ShortLineFails(line: string)
    requires |line| <= 60
    ensures DecodeAtom(line).Failure?
    ensures |line| <= 21 ==>
              DecodeAtom(line).error == if DecodeInt(Slice(line, 6, 11)).None?
                                        then BadNumber(Serial, Slice(line, 6, 11))
                                        else NoChainColumn
  {
    BlankIsNotANumber(Slice(line, 60, 66));
    DecodeAtomFails(line);
  }

  // ---------------------------------------------------------------------
  // Writing a record into its columns

  /** The fields of one ATOM record before it is written out: coordinates
      in thousandths of an angstrom and the temperature factor in
      hundredths, which is what the format's `%8.3f` and `%6.2f` columns
      hold. */
  datatype AtomColumns = AtomColumns(serial: int, name: string, resName: string, chainId: char,
                                     resSeq: int, x: int, y: int, z: int, tempFactor: int)

  function Spaces(n: nat): (s: string)
    ensures |s| == n && AllSpace(s) && AllNumberSpace(s)
  {
    seq(n, _ => ' ')
  }

  function RightAlign(s: string, width: nat): (r: string)
    requires |s| <= width
    ensures |r| == width
  {
    Spaces(width - |s|) + s
  }

  function LeftAlign(s: string, width: nat): (r: string)
    requires |s| <= width
    ensures |r| == width
  {
    s + Spaces(width - |s|)
  }

  /** Every field fits its columns, and names carry no whitespace at their ends. */
  predicate Fits(c: AtomColumns) {
    && |EncodeInt(c.serial)| <= 5
    && |c.name| <= 4 && Trimmed(c.name)
    && |c.resName| <= 3 && Trimmed(c.resName)
    && |EncodeInt(c.resSeq)| <= 4
    && |EncodeFixed(c.x, 3)| <= 8 && |EncodeFixed(c.y, 3)| <= 8 && |EncodeFixed(c.z, 3)| <= 8
    && |EncodeFixed(c.tempFactor, 2)| <= 6
  }

  /** Columns 1-21: record name, serial, atom name, altLoc, residue name and the gap before the chain. */
  function FormatHead(c: AtomColumns): (s: string)
    requires Fits(c)
    ensures |s| == 21
  {
    "ATOM  " + RightAlign(EncodeInt(c.serial), 5) + " " + LeftAlign(c.name, 4) + " "
    + RightAlign(c.resName, 3) + " "
  }

  /** Columns 31-54: the three coordinates. */
  function FormatCoords(c: AtomColumns): (s: string)
    requires Fits(c)
    ensures |s| == 24
  {
    RightAlign(EncodeFixed(c.x, 3), 8) + RightAlign(EncodeFixed(c.y, 3), 8) + RightAlign(EncodeFixed(c.z, 3), 8)
  }

  /** Columns 1-30: the identity of the atom, up to the first coordinate. */
  function FormatIdentity(c: AtomColumns): (s: string)
    requires Fits(c)
    ensures |s| == 30
  {
    FormatHead(c) + [c.chainId] + RightAlign(EncodeInt(c.resSeq), 4) + "    "
  }

  /** Columns 31-66: coordinates, occupancy 1.00 and the temperature factor. */
  function FormatValues(c: AtomColumns): (s: string)
    requires Fits(c)
    ensures |s| == 36
  {
    FormatCoords(c) + "  1.00" + RightAlign(EncodeFixed(c.tempFactor, 2), 6)
  }

  /** One ATOM line, 66 columns wide. */
  function FormatAtom(c: AtomColumns): (line: string)
    requires Fits(c)
    ensures |line| == 66
  {
    FormatIdentity(c) + FormatValues(c)
  }

  /** The record a well-formed line stands for. */
  function AtomOf(c: AtomColumns): Atom {
    Atom(c.serial, c.name, c.resName, c.chainId, c.resSeq,
         Decimal(c.x, 3), Decimal(c.y, 3), Decimal(c.z, 3), Decimal(c.tempFactor, 2))
  }

  lemma SliceLeft(p: string, q: string, lo: nat, hi: nat)
    requires lo <= hi <= |p|
    ensures Slice(p + q, lo, hi) == Slice(p, lo, hi)
  {
    assert (p + q)[lo..hi] == p[lo..hi];
  }

  lemma SliceRight(p: string, q: string, lo: nat, hi: nat)
    requires lo <= hi <= |q|
    ensures Slice(p + q, |p| + lo, |p| + hi) == Slice(q, lo, hi)
  {
    assert (p + q)[|p| + lo..|p| + hi] == q[lo..hi];
  }

  lemma SliceWhole(s: string)
    ensures Slice(s, 0, |s|) == s
  {
  }

  /** Where the serial number, atom name and residue name sit. */
  lemma HeadColumns(c: AtomColumns)
    requires Fits(c)
    ensures var head := FormatHead(c);
            && Slice(head, 6, 11) == RightAlign(EncodeInt(c.serial), 5)
            && Slice(head, 12, 16) == LeftAlign(c.name, 4)
            && Slice(head, 17, 20) == RightAlign(c.resName, 3)
  {
    var serial := RightAlign(EncodeInt(c.serial), 5);
    var name := LeftAlign(c.name, 4);
    var resName := RightAlign(c.resName, 3);
    var p1 := "ATOM  " + serial;
    var p2 := p1 + " " + name;
    var p3 := p2 + " " + resName;
    assert FormatHead(c) == p3 + " ";
    SliceLeft(p3, " ", 6, 11);
    SliceLeft(p2 + " ", resName, 6, 11);
    SliceLeft(p2, " ", 6, 11);
    SliceLeft(p1 + " ", name, 6, 11);
    SliceLeft(p1, " ", 6, 11);
    SliceRight("ATOM  ", serial, 0, 5);
    SliceWhole(serial);
    SliceLeft(p3, " ", 12, 16);
    SliceLeft(p2 + " ", resName, 12, 16);
    SliceLeft(p2, " ", 12, 16);
    SliceRight(p1 + " ", name, 0, 4);
    SliceWhole(name);
    SliceLeft(p3, " ", 17, 20);
    SliceRight(p2 + " ", resName, 0, 3);
    SliceWhole(resName);
  }

  /** Where the three coordinates sit within columns 31-54. */
  lemma CoordColumns(c: AtomColumns)
    requires Fits(c)
    ensures var coords := FormatCoords(c);
            && Slice(coords, 0, 8) == RightAlign(EncodeFixed(c.x, 3), 8)
            && Slice(coords, 8, 16) == RightAlign(EncodeFixed(c.y, 3), 8)
            && Slice(coords, 16, 24) == RightAlign(EncodeFixed(c.z, 3), 8)
  {
    var x := RightAlign(EncodeFixed(c.x, 3), 8);
    var y := RightAlign(EncodeFixed(c.y, 3), 8);
    var z := RightAlign(EncodeFixed(c.z, 3), 8);
    SliceLeft(x + y, z, 0, 8);
    SliceLeft(x, y, 0, 8);
    SliceWhole(x);
    SliceLeft(x + y, z, 8, 16);
    SliceRight(x, y, 0, 8);
    SliceWhole(y);
    SliceRight(x + y, z, 0, 8);
    SliceWhole(z);
  }

  /** Where the fields of columns 1-30 sit. */
  lemma IdentityColumns(c: AtomColumns)
    requires Fits(c)
    ensures var ident := FormatIdentity(c);
            && Slice(ident, 6, 11) == RightAlign(EncodeInt(c.serial), 5)
            && Slice(ident, 12, 16) == LeftAlign(c.name, 4)
            && Slice(ident, 17, 20) == RightAlign(c.resName, 3)
            && ident[21] == c.chainId
            && Slice(ident, 22, 26) == RightAlign(EncodeInt(c.resSeq), 4)
  {
    var head := FormatHead(c);
    var resSeq := RightAlign(EncodeInt(c.resSeq), 4);
    var tail := [c.chainId] + resSeq + "    ";
    assert FormatIdentity(c) == head + tail;
    HeadColumns(c);
    SliceLeft(head, tail, 6, 11);
    SliceLeft(head, tail, 12, 16);
    SliceLeft(head, tail, 17, 20);
    assert (head + tail)[21] == tail[0];
    SliceRight(head, tail, 1, 5);
    SliceLeft([c.chainId] + resSeq, "    ", 1, 5);
    SliceRight([c.chainId], resSeq, 0, 4);
    SliceWhole(resSeq);
  }

  /** Where the fields of columns 31-66 sit, counted from column 31. */
  lemma ValueColumns(c: AtomColumns)
    requires Fits(c)
    ensures var values := FormatValues(c);
            && Slice(values, 0, 8) == RightAlign(EncodeFixed(c.x, 3), 8)
            && Slice(values, 8, 16) == RightAlign(EncodeFixed(c.y, 3), 8)
            && Slice(values, 16, 24) == RightAlign(EncodeFixed(c.z, 3), 8)
            && Slice(values, 30, 36) == RightAlign(EncodeFixed(c.tempFactor, 2), 6)
  {
    var coords := FormatCoords(c);
    var temp := RightAlign(EncodeFixed(c.tempFactor, 2), 6);
    CoordColumns(c);
    SliceLeft(coords + "  1.00", temp, 0, 8);
    SliceLeft(coords + "  1.00", temp, 8, 16);
    SliceLeft(coords + "  1.00", temp, 16, 24);
    SliceLeft(coords, "  1.00", 0, 8);
    SliceLeft(coords, "  1.00", 8, 16);
    SliceLeft(coords, "  1.00", 16, 24);
    SliceRight(coords + "  1.00", temp, 0, 6);
    SliceWhole(temp);
  }

  /** Where the identity fields of a formatted line sit. */
  lemma LineIdentityColumns(c: AtomColumns)
    requires Fits(c)
    ensures var line := FormatAtom(c);
            && Slice(line, 6, 11) == RightAlign(EncodeInt(c.serial), 5)
            && Slice(line, 12, 16) == LeftAlign(c.name, 4)
            && Slice(line, 17, 20) == RightAlign(c.resName, 3)
            && line[21] == c.chainId
            && Slice(line, 22, 26) == RightAlign(EncodeInt(c.resSeq), 4)
  {
    var ident := FormatIdentity(c);
    var values := FormatValues(c);
    IdentityColumns(c);
    SliceLeft(ident, values, 6, 11);
    SliceLeft(ident, values, 12, 16);
    SliceLeft(ident, values, 17, 20);
    SliceLeft(ident, values, 22, 26);
    assert (ident + values)[21] == ident[21];
  }

  /** Where the coordinates and the confidence of a formatted line sit. */
  lemma LineValueColumns(c: AtomColumns)
    requires Fits(c)
    ensures var line := FormatAtom(c);
            && Slice(line, 30, 38) == RightAlign(EncodeFixed(c.x, 3), 8)
            && Slice(line, 38, 46) == RightAlign(EncodeFixed(c.y, 3), 8)
            && Slice(line, 46, 54) == RightAlign(EncodeFixed(c.z, 3), 8)
            && Slice(line, 60, 66) == RightAlign(EncodeFixed(c.tempFactor, 2), 6)
  {
    var ident := FormatIdentity(c);
    var values := FormatValues(c);
    ValueColumns(c);
    SliceRight(ident, values, 0, 8);
    SliceRight(ident, values, 8, 16);
    SliceRight(ident, values, 16, 24);
    SliceRight(ident, values, 30, 36);
  }

  lemma RightAlignedInt(n: int, width: nat)
    requires |EncodeInt(n)| <= width
    ensures DecodeInt(RightAlign(EncodeInt(n), width)) == Some(n)
  {
    DecodeEncodeInt(n, Spaces(width - |EncodeInt(n)|), "");
    assert Spaces(width - |EncodeInt(n)|) + EncodeInt(n) + "" == RightAlign(EncodeInt(n), width);
  }

  lemma RightAlignedFixed(n: int, places: nat, width: nat)
    requires places >= 1 && |EncodeFixed(n, places)| <= width
    ensures DecodeDecimal(RightAlign(EncodeFixed(n, places), width)) == Some(Decimal(n, places))
  {
    DecodeEncodeFixed(n, places, Spaces(width - |EncodeFixed(n, places)|), "");
    assert Spaces(width - |EncodeFixed(n, places)|) + EncodeFixed(n, places) + "" == RightAlign(EncodeFixed(n, places), width);
  }

  lemma AlignedName(name: string, width: nat)
    requires |name| <= width && Trimmed(name)
    ensures Strip(LeftAlign(name, width)) == name && Strip(RightAlign(name, width)) == name
  {
    StripPadded("", name, Spaces(width - |name|));
    assert "" + name + Spaces(width - |name|) == LeftAlign(name, width);
    StripPadded(Spaces(width - |name|), name, "");
    assert Spaces(width - |name|) + name + "" == RightAlign(name, width);
  }

  /** The identity fields of a formatted line decode to the values written. */
  lemma IdentityRoundTrip(c: AtomColumns)
    requires Fits(c)
    ensures var line := FormatAtom(c);
            && IntField(line, 6, 11, Serial) == Success(c.serial)
            && Strip(Slice(line, 12, 16)) == c.name
            && Strip(Slice(line, 17, 20)) == c.resName
            && ChainField(line) == Success(c.chainId)
            && IntField(line, 22, 26, ResSeq) == Success(c.resSeq)
  {
    LineIdentityColumns(c);
    RightAlignedInt(c.serial, 5);
    AlignedName(c.name, 4);
    AlignedName(c.resName, 3);
    RightAlignedInt(c.resSeq, 4);
  }

  /** The coordinates and the confidence of a formatted line decode to the values written. */
  lemma ValueRoundTrip(c: AtomColumns)
    requires Fits(c)
    ensures var line := FormatAtom(c);
            && DecimalField(line, 30, 38, CoordX) == Success(Decimal(c.x, 3))
            && DecimalField(line, 38, 46, CoordY) == Success(Decimal(c.y, 3))
            && DecimalField(line, 46, 54, CoordZ) == Success(Decimal(c.z, 3))
            && DecimalField(line, 60, 66, TempFactor) == Success(Decimal(c.tempFactor, 2))
  {
    LineValueColumns(c);
    RightAlignedFixed(c.x, 3, 8);
    RightAlignedFixed(c.y, 3, 8);
    RightAlignedFixed(c.z, 3, 8);
    RightAlignedFixed(c.tempFactor, 2, 6);
  }

  /** Decoding a formatted line gives back the record that was written:
      the decoder and the formatter agree on every column. */
  lemma {:induction false} DecodeFormat(c: AtomColumns)
    requires Fits(c)
    ensures StartsWith(FormatAtom(c), AtomMarker)
    ensures DecodeAtom(FormatAtom(c)) == Success(AtomOf(c))
  {
    FormattedMarker(c);
    IdentityRoundTrip(c);
    ValueRoundTrip(c);
  }

  lemma FormattedMarker(c: AtomColumns)
    requires Fits(c)
    ensures StartsWith(FormatAtom(c), AtomMarker)
  {
    var line := FormatAtom(c);
    assert line[..4] == FormatIdentity(c)[..4] == FormatHead(c)[..4];
  }

  // ---------------------------------------------------------------------
  // Decoding a whole file

  /** What `_parse_atoms` leaves behind: the records appended before it
      stopped, and the error that stopped it, if any. */
  datatype Parsed = Parsed(atoms: seq<Atom>, error: Option<RecordError>)

  /** `f` applied to every element, in order. */
  function Map<A, B>(f: A -> B, xs: seq<A>): (ys: seq<B>)
    ensures |ys| == |xs|
  {
    if |xs| == 0 then [] else Map(f, xs[..|xs| - 1]) + [f(xs[|xs| - 1])]
  }

  lemma {:induction false} MapAt<A, B>(f: A -> B, xs: seq<A>)
    ensures forall k :: 0 <= k < |xs| ==> Map(f, xs)[k] == f(xs[k])
  {
    if |xs| > 0 {
      var init := xs[..|xs| - 1];
      MapAt(f, init);
      assert forall k :: 0 <= k < |init| ==> xs[k] == init[k];
    }
  }

  lemma {:induction false} MapAppend<A, B>(f: A -> B, xs: seq<A>, rest: seq<A>)
    ensures Map(f, xs + rest) == Map(f, xs) + Map(f, rest)
    decreases |rest|
  {
    if |rest| == 0 {
      assert xs + rest == xs;
    } else {
      var init, last := rest[..|rest| - 1], rest[|rest| - 1];
      MapAppend(f, xs, init);
      assert (xs + rest)[..|xs + rest| - 1] == xs + init && (xs + rest)[|xs + rest| - 1] == last;
      calc {
        Map(f, xs + rest);
        Map(f, xs + init) + [f(last)];
        Map(f, xs) + Map(f, init) + [f(last)];
        Map(f, xs) + (Map(f, init) + [f(last)]);
        Map(f, xs) + Map(f, rest);
      }
    }
  }

  /** The loop over decoded lines: records are appended in order until
      the first failure, which stops it. */
  function Collect(rs: seq<Result<Atom, RecordError>>): (p: Parsed)
    ensures p.error.None? ==> |p.atoms| == |rs|
    ensures p.error.Some? ==> |p.atoms| < |rs|
  {
    if |rs| == 0 then Parsed([], None)
    else
      var p := Collect(rs[..|rs| - 1]);
      if p.error.Some? then p
      else match rs[|rs| - 1]
        case Success(a) => Parsed(p.atoms + [a], None)
        case Failure(e) => Parsed(p.atoms, Some(e))
  }

  /** Each record collected is the result at its own position, and the
      error, if any, is the result just after them. */
  lemma {:induction false} CollectRecords(rs: seq<Result<Atom, RecordError>>)
    ensures var p := Collect(rs);
            && (forall k :: 0 <= k < |p.atoms| ==> rs[k] == Success(p.atoms[k]))
            && (p.error.Some? ==> rs[|p.atoms|] == Failure(p.error.value))
  {
    if |rs| > 0 {
      var init := rs[..|rs| - 1];
      CollectRecords(init);
      assert forall k :: 0 <= k < |init| ==> rs[k] == init[k];
    }
  }

  /** Past a failure, further results leave the collected prefix alone. */
  lemma {:induction false} CollectStops(rs: seq<Result<Atom, RecordError>>, rest: seq<Result<Atom, RecordError>>)
    requires Collect(rs).error.Some?
    ensures Collect(rs + rest) == Collect(rs)
    decreases |rest|
  {
    if |rest| == 0 {
      assert rs + rest == rs;
    } else {
      var init := rest[..|rest| - 1];
      CollectStops(rs, init);
      assert (rs + rest)[..|rs + rest| - 1] == rs + init;
    }
  }

  /** Results that are all successes are collected whole. */
  lemma {:induction false} CollectSucceeds(rs: seq<Result<Atom, RecordError>>, atoms: seq<Atom>)
    requires |rs| == |atoms|
    requires forall k :: 0 <= k < |rs| ==> rs[k] == Success(atoms[k])
    ensures Collect(rs) == Parsed(atoms, None)
  {
    if |rs| > 0 {
      var n := |rs| - 1;
      CollectSucceeds(rs[..n], atoms[..n]);
      assert atoms[..n] + [atoms[n]] == atoms;
    }
  }

  /** Decodes ATOM lines in order and stops at the first that raises. */
  function DecodeAll(lines: seq<string>): (p: Parsed)
    ensures p.error.None? ==> |p.atoms| == |lines|
    ensures p.error.Some? ==> |p.atoms| < |lines|
  {
    Collect(Map(DecodeAtom, lines))
  }

  /** Each record decoded comes from the line at its own position, and the
      error, if any, is the one raised by the line just after them. */
  lemma DecodeAllRecords(lines: seq<string>)
    ensures var p := DecodeAll(lines);
            && (forall k :: 0 <= k < |p.atoms| ==> DecodeAtom(lines[k]) == Success(p.atoms[k]))
            && (p.error.Some? ==> DecodeAtom(lines[|p.atoms|]) == Failure(p.error.value))
  {
    MapAt(DecodeAtom, lines);
    CollectRecords(Map(DecodeAtom, lines));
  }

  /** The loop of `_parse_atoms` over the lines of a file. */
  function ParseLines(lines: seq<string>): (p: Parsed)
    ensures |p.atoms| <= |KeepPrefixed(lines, AtomMarker)|
    ensures p.error.None? ==> |p.atoms| == |KeepPrefixed(lines, AtomMarker)|
  {
    DecodeAll(KeepPrefixed(lines, AtomMarker))
  }

  /** `_parse_atoms` on the text of a file. */
  function ParsePdb(text: string): Parsed {
    ParseLines(Split(text, '\n'))
  }

  /** One more line: a line that is not an ATOM record changes nothing, an
      ATOM line after an error is never reached, and otherwise the line
      either adds its record or stops the parse with its error. */
  lemma {:induction false} ParseLinesStep(lines: seq<string>, line: string)
    ensures ParseLines(lines + [line]) ==
              if !StartsWith(line, AtomMarker) || ParseLines(lines).error.Some? then ParseLines(lines)
              else match DecodeAtom(line)
                case Success(a) => Parsed(ParseLines(lines).atoms + [a], None)
                case Failure(e) => Parsed(ParseLines(lines).atoms, Some(e))
  {
    KeepPrefixedAppend(lines, [line], AtomMarker);
    var kept := KeepPrefixed(lines, AtomMarker);
    assert KeepPrefixed([line], AtomMarker) == if StartsWith(line, AtomMarker) then [line] else [] by {
      assert [line][..0] == [];
    }
    if StartsWith(line, AtomMarker) {
      assert (kept + [line])[..|kept|] == kept;
      assert Map(DecodeAtom, kept + [line]) == Map(DecodeAtom, kept) + [DecodeAtom(line)];
      assert (Map(DecodeAtom, kept) + [DecodeAtom(line)])[..|kept|] == Map(DecodeAtom, kept);
    } else {
      assert kept + [] == kept;
    }
  }

  /** Past an error, further lines leave the decoded prefix alone. */
  lemma DecodeAllStops(lines: seq<string>, rest: seq<string>)
    requires DecodeAll(lines).error.Some?
    ensures DecodeAll(lines + rest) == DecodeAll(lines)
  {
    MapAppend(DecodeAtom, lines, rest);
    CollectStops(Map(DecodeAtom, lines), Map(DecodeAtom, rest));
  }

  /** Once an ATOM line has raised, nothing after it is read. */
  lemma ParseLinesStops(lines: seq<string>, rest: seq<string>)
    requires ParseLines(lines).error.Some?
    ensures ParseLines(lines + rest) == ParseLines(lines)
  {
    KeepPrefixedAppend(lines, rest, AtomMarker);
    DecodeAllStops(KeepPrefixed(lines, AtomMarker), KeepPrefixed(rest, AtomMarker));
  }

  /** The parse of a file that raises at line `i` is the parse of its
      first `i + 1` lines. */
  lemma ParseLinesPrefix(lines: seq<string>, i: nat)
    requires i < |lines| && ParseLines(lines[..i + 1]).error.Some?
    ensures ParseLines(lines) == ParseLines(lines[..i + 1])
  {
    var kept, rest := lines[..i + 1], lines[i + 1..];
    assert kept + rest == lines;
    ParseLinesStops(kept, rest);
  }

  /** A file whose every ATOM line is well formed yields one record per
      ATOM line, in file order, and no error. */
  lemma ParseWellFormed(lines: seq<string>)
    requires forall l :: l in lines && StartsWith(l, AtomMarker) ==> DecodeAtom(l).Success?
    ensures ParseLines(lines).error == None
    ensures |ParseLines(lines).atoms| == |KeepPrefixed(lines, AtomMarker)|
    ensures forall k :: 0 <= k < |ParseLines(lines).atoms| ==>
              Success(ParseLines(lines).atoms[k]) == DecodeAtom(KeepPrefixed(lines, AtomMarker)[k])
  {
    DecodeAllRecords(KeepPrefixed(lines, AtomMarker));
  }

  /** The lines of a file as `FormatAtom` writes them. */
  function FormatLines(cs: seq<AtomColumns>): (lines: seq<string>)
    requires forall k :: 0 <= k < |cs| ==> Fits(cs[k])
    ensures |lines| == |cs|
  {
    seq(|cs|, k requires 0 <= k < |cs| => FormatAtom(cs[k]))
  }

  /** Lines that all decode give back exactly their records, in order. */
  lemma DecodeAllSucceeds(lines: seq<string>, atoms: seq<Atom>)
    requires |lines| == |atoms|
    requires forall k :: 0 <= k < |lines| ==> DecodeAtom(lines[k]) == Success(atoms[k])
    ensures DecodeAll(lines) == Parsed(atoms, None)
  {
    MapAt(DecodeAtom, lines);
    CollectSucceeds(Map(DecodeAtom, lines), atoms);
  }

  /** Parsing lines written by `FormatAtom` gives back every record, in order. */
  lemma ParseFormatted(cs: seq<AtomColumns>)
    requires forall k :: 0 <= k < |cs| ==> Fits(cs[k])
    ensures ParseLines(FormatLines(cs)) == Parsed(seq(|cs|, k requires 0 <= k < |cs| => AtomOf(cs[k])), None)
  {
    var lines := FormatLines(cs);
    var atoms := seq(|cs|, k requires 0 <= k < |cs| => AtomOf(cs[k]));
    forall k | 0 <= k < |cs|
      ensures StartsWith(lines[k], AtomMarker) && DecodeAtom(lines[k]) == Success(atoms[k])
    {
      DecodeFormat(cs[k]);
    }
    KeepPrefixedAll(lines, AtomMarker);
    DecodeAllSucceeds(lines, atoms);
  }

  /** Splitting the text at newlines recovers the lines, so a file is parsed
      exactly as its list of lines. */
  lemma ParsePdbLines(lines: seq<string>)
    requires |lines| >= 1
    requires forall k :: 0 <= k < |lines| ==> '\n' !in lines[k]
    ensures ParsePdb(Join(lines, '\n')) == ParseLines(lines)
  {
    SplitJoin(lines, '\n');
  }
}
