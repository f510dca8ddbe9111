/** The GRIB2 to NetCDF converter: selecting the ".grib2" names of a listing,
    deriving each output path, and the conversion loop that skips an input
    the raster library cannot open. The library itself is not modelled: only
    whether opening an input succeeds, given as a predicate. */
module Conversion {
  import opened PathNames
  import opened FileSystem

  /** The listed names ending in ".grib2" (case-sensitive), in listing order. */
  function SelectGrib(listing: seq<string>): (r: seq<string>)
    ensures forall n :: n in r <==> n in listing && EndsWith(n, ".grib2")
  {
    if listing == [] then []
    else
      assert forall n :: n in listing <==> n == listing[0] || n in listing[1..];
      (if EndsWith(listing[0], ".grib2") then [listing[0]] else []) + SelectGrib(listing[1..])
  }

  /** Selection keeps listing order: selecting from a + b selects from a, then from b. */
  lemma {:induction false} SelectGribAppend(a: seq<string>, b: seq<string>)
    ensures SelectGrib(a + b) == SelectGrib(a) + SelectGrib(b)
  {
    if a == [] {
      assert a + b == b;
    } else {
      assert (a + b)[0] == a[0] && (a + b)[1..] == a[1..] + b;
      SelectGribAppend(a[1..], b);
    }
  }

  /** One step of the selection: the first listed name, when selected,
      comes before the names selected from the rest. */
  lemma SelectGribCons(n: string, rest: seq<string>)
    ensures SelectGrib([n] + rest) == (if EndsWith(n, ".grib2") then [n] else []) + SelectGrib(rest)
  {
    assert ([n] + rest)[0] == n && ([n] + rest)[1..] == rest;
  }

  /** The input paths, os.path.join(directory, name) for each selected name. */
  function GribPaths(dir: string, listing: seq<string>): (r: seq<Path>)
    ensures forall i :: 0 <= i < |r| ==>
      r[i].dir == dir && EndsWith(r[i].name, ".grib2")
  {
    var names := SelectGrib(listing);
    seq(|names|, i requires 0 <= i < |names| => Path(dir, names[i]))
  }

  /** The inputs are exactly the listed ".grib2" names, joined to the directory. */
  lemma GribPathsMember(dir: string, listing: seq<string>)
    ensures forall p :: p in GribPaths(dir, listing) <==>
      p.dir == dir && p.name in listing && EndsWith(p.name, ".grib2")
  {
    var names := SelectGrib(listing);
    var r := GribPaths(dir, listing);
    assert forall p :: p in r ==> p.name in names;
    forall n | n in names ensures Path(dir, n) in r {
      var i :| 0 <= i < |names| && names[i] == n;
      assert r[i] == Path(dir, n);
    }
  }

  /** The output name: the input's base name (os.path.splitext) followed by ".nc". */
  function OutputName(name: string): (out: string)
    ensures EndsWith(out, ".nc")
  {
    var out := SplitExt(name).0 + ".nc";
    assert out[|out| - 3..] == ".nc";
    out
  }

  /** The output path is in the input's directory and, for a selected input,
      never the input itself. */
  function OutputPath(input: Path): (out: Path)
    ensures out.dir == input.dir
    ensures EndsWith(input.name, ".grib2") ==> out != input
  {
    var out := Path(input.dir, OutputName(input.name));
    var n := input.name;
    assert EndsWith(n, ".grib2") ==> n[|n| - 1] == n[|n| - 6..][5] == '2';
    assert out.name[|out.name| - 1] == out.name[|out.name| - 3..][2] == 'c';
    out
  }

  /** For a name whose stem holds a non-dot character, ".grib2" is replaced
      by ".nc": "a.grib2" becomes "a.nc". */
  lemma OutputOfGrib(stem: string)
    requires HasNonDot(stem)
    ensures OutputName(stem + ".grib2") == stem + ".nc"
  {
    SplitExtUnique(stem + ".grib2", stem, ".grib2");
  }

  /** A stem of dots only (".grib2", "..grib2") is no base name: the whole
      name is kept and ".nc" appended. */
  lemma OutputOfDotStem(stem: string)
    requires !HasNonDot(stem)
    ensures OutputName(stem + ".grib2") == stem + ".grib2.nc"
  {
    var name := stem + ".grib2";
    forall k | |stem| < k < |name| ensures name[k] != '.' {
      assert name[k] == ".grib2"[k - |stem|];
    }
    forall i, j | 0 <= j < i < |name| && name[i] == '.' ensures name[j] == '.' {
      assert name[j] == stem[j];
    }
    assert name + [] == name;
    SplitExtUnique(name, name, []);
  }

  /** Distinct selected names with ordinary stems get distinct outputs. */
  lemma OutputInjective(a: string, b: string)
    requires EndsWith(a, ".grib2") && EndsWith(b, ".grib2")
    requires HasNonDot(a[..|a| - 6]) && HasNonDot(b[..|b| - 6])
    requires OutputName(a) == OutputName(b)
    ensures a == b
  {
    var sa, sb := a[..|a| - 6], b[..|b| - 6];
    StemOfGrib(a);
    StemOfGrib(b);
    OutputOfGrib(sa);
    OutputOfGrib(sb);
    StemOfOutput(sa);
    StemOfOutput(sb);
  }

  /** A selected name is its stem followed by ".grib2". */
  lemma StemOfGrib(a: string)
    requires EndsWith(a, ".grib2")
    ensures a == a[..|a| - 6] + ".grib2"
  {
  }

  /** The stem is the output name without its ".nc". */
  lemma StemOfOutput(s: string)
    ensures (s + ".nc")[..|s|] == s
  {
  }

  /** A dot-only stem makes two selected names share an output: ".grib2"
      and ".grib2.grib2" both convert to ".grib2.nc", so the second copy
      overwrites the first. */
  lemma OutputCollision(stem: string)
    requires !HasNonDot(stem)
    ensures stem + ".grib2" != stem + ".grib2" + ".grib2"
    ensures OutputName(stem + ".grib2") == OutputName(stem + ".grib2" + ".grib2")
  {
    OutputOfDotStem(stem);
    var longer := stem + ".grib2";
    assert longer[|stem| + 1] == 'g';
    OutputOfGrib(longer);
    assert |longer| < |longer + ".grib2"|;
  }

  /** The names created by copying each input that opens to its output name. */
  function Created(inputs: seq<Path>, opens: Path -> bool): (r: set<string>)
    ensures forall n :: n in r ==> EndsWith(n, ".nc")
  {
    if inputs == [] then {}
    else
      var last := inputs[|inputs| - 1];
      Created(inputs[..|inputs| - 1], opens) + (if opens(last) then {OutputName(last.name)} else {})
  }

  /** A name is created exactly when it is the output name of an input that opens. */
  lemma {:induction false} CreatedMember(inputs: seq<Path>, opens: Path -> bool)
    ensures forall n :: n in Created(inputs, opens) <==>
      exists p :: p in inputs && opens(p) && OutputName(p.name) == n
  {
    if inputs != [] {
      var last := inputs[|inputs| - 1];
      var init := inputs[..|inputs| - 1];
      assert inputs == init + [last];
      CreatedMember(init, opens);
    }
  }

  /** An input that fails to open produces no output, unless another input
      that opens shares its output name. */
  lemma SkippedInputNoOutput(inputs: seq<Path>, opens: Path -> bool, p: Path)
    requires p in inputs && !opens(p)
    requires forall q :: q in inputs && opens(q) ==> OutputName(q.name) != OutputName(p.name)
    ensures OutputName(p.name) !in Created(inputs, opens)
  {
    CreatedMember(inputs, opens);
  }

  /** Two selected names give two input paths, in the same order. */
  lemma GribPathsOfTwo(dir: string, listing: seq<string>, a: string, b: string)
    requires SelectGrib(listing) == [a, b]
    ensures GribPaths(dir, listing) == [Path(dir, a), Path(dir, b)]
  {
  }

  /** Of "a.grib2", "b.grib2" and "c.txt" only the first two end in ".grib2". */
  lemma ExampleSelected(a: string, b: string, c: string)
    requires a == "a.grib2" && b == "b.grib2" && c == "c.txt"
    ensures SelectGrib([a, b, c]) == [a, b]
  {
    assert a[|a| - 6..] == ".grib2";
    assert b[|b| - 6..] == ".grib2";
    assert c[|c| - 1] != '2';
    SelectGribCons(c, []);
    SelectGribCons(b, [c]);
    SelectGribCons(a, [b, c]);
  }

  /** "a.grib2" converts to "a.nc" and "b.grib2" to "b.nc". */
  lemma ExampleOutputs(a: string, b: string)
    requires a == "a.grib2" && b == "b.grib2"
    ensures OutputName(a) == "a.nc" && OutputName(b) == "b.nc"
  {
    var sa, sb := a[..1], b[..1];
    assert a == sa + ".grib2" && b == sb + ".grib2";
    assert sa[0] != '.' && sb[0] != '.';
    OutputOfGrib(sa);
    OutputOfGrib(sb);
  }

  /** Of "a.grib2", "b.grib2" and "c.txt" only the first two are selected,
      in that order, and they convert to "a.nc" and "b.nc". */
  lemma SelectionExample(dir: string, a: string, b: string, c: string)
    requires a == "a.grib2" && b == "b.grib2" && c == "c.txt"
    ensures GribPaths(dir, [a, b, c]) == [Path(dir, a), Path(dir, b)]
    ensures OutputName(a) == "a.nc" && OutputName(b) == "b.nc"
  {
    ExampleSelected(a, b, c);
    GribPathsOfTwo(dir, [a, b, c], a, b);
    ExampleOutputs(a, b);
  }

  /** What the loop reports for one input (its print lines). A Converted
      input was copied to `output`; a Skipped one failed to open. */
  datatype Report = Converted(input: Path, output: Path) | Skipped(input: Path)

  /** `reports` has one entry per input, in input order: a copy to the
      derived output path when the input opens, a skip otherwise. */
  predicate Reported(reports: seq<Report>, inputs: seq<Path>, opens: Path -> bool) {
    |reports| == |inputs| &&
    forall k :: 0 <= k < |inputs| ==>
      reports[k].input == inputs[k] &&
      (reports[k].Converted? <==> opens(inputs[k])) &&
      (reports[k].Converted? ==> reports[k].output == OutputPath(inputs[k]))
  }

  /** The reports for one more input extend those for the inputs before it. */
  lemma ReportedStep(reports: seq<Report>, inputs: seq<Path>, i: nat, r: Report, opens: Path -> bool)
    requires i < |inputs| && Reported(reports, inputs[..i], opens)
    requires r.input == inputs[i] && (r.Converted? <==> opens(inputs[i]))
    requires r.Converted? ==> r.output == OutputPath(inputs[i])
    ensures Reported(reports + [r], inputs[..i + 1], opens)
  {
    assert inputs[..i + 1][..i] == inputs[..i];
  }

  /** The names created for one more input: its output name when it opens. */
  lemma CreatedStep(inputs: seq<Path>, i: nat, opens: Path -> bool)
    requires i < |inputs|
    ensures Created(inputs[..i + 1], opens)
         == Created(inputs[..i], opens) + (if opens(inputs[i]) then {OutputName(inputs[i].name)} else {})
  {
    assert inputs[..i + 1][..i] == inputs[..i];
  }

  /** One more input handled: its report extends the reports, and the folder
      gains its output name when it opens. */
  lemma ConvertStep(e0: set<string>, e1: set<string>, e2: set<string>, reports: seq<Report>,
                    inputs: seq<Path>, i: nat, r: Report, opens: Path -> bool)
    requires i < |inputs|
    requires Reported(reports, inputs[..i], opens) && e1 == e0 + Created(inputs[..i], opens)
    requires r.input == inputs[i] && (r.Converted? <==> opens(inputs[i]))
    requires r.Converted? ==> r.output == OutputPath(inputs[i])
    requires e2 == e1 + (if opens(inputs[i]) then {OutputName(inputs[i].name)} else {})
    ensures Reported(reports + [r], inputs[..i + 1], opens)
    ensures e2 == e0 + Created(inputs[..i + 1], opens)
  {
    ReportedStep(reports, inputs, i, r, opens);
    CreatedStep(inputs, i, opens);
    UnionAssoc(e0, Created(inputs[..i], opens),
               if opens(inputs[i]) then {OutputName(inputs[i].name)} else {});
  }

  /** Set union is associative. */
  lemma UnionAssoc<T>(a: set<T>, b: set<T>, c: set<T>)
    ensures a + b + c == a + (b + c)
  {
  }

  /** One pass of the conversion loop: an input that fails to open is
      skipped and creates nothing; an input that opens is copied to its
      output path, which the folder then holds. */
  method ConvertOne(folder: Folder, input: Path, opens: Path -> bool) returns (report: Report)
    modifies folder
    ensures folder.kind == old(folder.kind)
    ensures report.input == input && (report.Converted? <==> opens(input))
    ensures report.Converted? ==> report.output == OutputPath(input)
    ensures folder.entries == old(folder.entries) + (if opens(input) then {OutputName(input.name)} else {})
  {
    var output := OutputPath(input);
    if !opens(input) {
      return Skipped(input);
    }
    folder.Create(output.name);
    report := Converted(input, output);
  }

  /** The loop over the selected inputs, in listing order: each is converted
      or skipped in turn, and a skipped input does not stop the loop. */
  method ConvertAll(folder: Folder, listing: seq<string>, opens: Path -> bool) returns (reports: seq<Report>)
    requires folder.kind == Directory && Enumerates(listing, folder.entries)
    modifies folder
    ensures folder.kind == old(folder.kind)
    ensures Reported(reports, GribPaths(folder.path, listing), opens)
    ensures folder.entries == old(folder.entries) + Created(GribPaths(folder.path, listing), opens)
  {
    var inputs := GribPaths(folder.path, listing);
    reports := [];
    var i := 0;
    while i < |inputs|
      invariant 0 <= i <= |inputs|
      invariant folder.kind == old(folder.kind)
      invariant Reported(reports, inputs[..i], opens)
      invariant folder.entries == old(folder.entries) + Created(inputs[..i], opens)
    {
      ghost var before := folder.entries;
      var report := ConvertOne(folder, inputs[i], opens);
      ConvertStep(old(folder.entries), before, folder.entries, reports, inputs, i, report, opens);
      reports := reports + [report];
      i := i + 1;
    }
    assert inputs[..i] == inputs;
  }
}
