/** The batch renamer: the token rename rule (rename_file), the rename loop
    over one folder's listing snapshot (process_folder) and the loop over the
    configured folders (main). */
module Renaming {
  import opened PathNames
  import opened FileSystem

  /** rename_file: split off the extension, split the base on '_'; with fewer
      than three tokens keep the name, otherwise rebuild it as
      Amite_{t0}_{t1}_Max{t2}{ext}, dropping every token after the third. */
  function RenameFile(filename: string): (r: string)
    ensures EndsWith(r, Ext(filename))
  {
    var (base, ext) := SplitExt(filename);
    var parts := Split(base, '_');
    if |parts| < 3 then
      assert filename[|filename| - |ext|..] == ext;
      filename
    else
      var r := "Amite_" + parts[0] + "_" + parts[1] + "_Max" + parts[2] + ext;
      assert r[|r| - |ext|..] == ext;
      r
  }

  /** A base with fewer than two underscores has fewer than three tokens: the
      name is kept as it is. */
  lemma RenameKeepsShortNames(name: string)
    requires Count(SplitExt(name).0, '_') < 2
    ensures RenameFile(name) == name
  {
    SplitLength(SplitExt(name).0, '_');
  }

  /** A base of the shape t0_t1_t2 followed by nothing or by further
      '_'-separated tokens is renamed to Amite_t0_t1_Maxt2 plus the extension. */
  lemma RenameTemplate(name: string, t0: string, t1: string, t2: string, tail: string)
    requires SplitExt(name).0 == t0 + "_" + t1 + "_" + t2 + tail
    requires '_' !in t0 && '_' !in t1 && '_' !in t2
    requires tail == [] || tail[0] == '_'
    ensures RenameFile(name) == "Amite_" + t0 + "_" + t1 + "_Max" + t2 + Ext(name)
  {
    SplitFirstThree(t0, t1, t2, '_', tail);
  }

  /** Tokens after the third are discarded: names that agree on the first
      three tokens and on the extension are renamed alike. */
  lemma RenameIgnoresTail(a: string, b: string, t0: string, t1: string, t2: string,
                          tailA: string, tailB: string)
    requires SplitExt(a).0 == t0 + "_" + t1 + "_" + t2 + tailA
    requires SplitExt(b).0 == t0 + "_" + t1 + "_" + t2 + tailB
    requires '_' !in t0 && '_' !in t1 && '_' !in t2
    requires tailA == [] || tailA[0] == '_'
    requires tailB == [] || tailB[0] == '_'
    requires Ext(a) == Ext(b)
    ensures RenameFile(a) == RenameFile(b)
  {
    RenameTemplate(a, t0, t1, t2, tailA);
    RenameTemplate(b, t0, t1, t2, tailB);
  }

  /** A name t0_t1_t2 with an extension is renamed to Amite_t0_t1_Maxt2 with
      the same extension. */
  lemma RenameThreeTokens(name: string, t0: string, t1: string, t2: string, ext: string)
    requires name == t0 + "_" + t1 + "_" + t2 + ext
    requires '_' !in t0 && '_' !in t1 && '_' !in t2
    requires ext != [] && ext[0] == '.' && '.' !in ext[1..]
    ensures RenameFile(name) == "Amite_" + t0 + "_" + t1 + "_Max" + t2 + ext
  {
    var base := t0 + "_" + t1 + "_" + t2;
    assert name == base + ext;
    assert base[|t0|] == '_';
    SplitExtUnique(name, base, ext);
    assert base == t0 + "_" + t1 + "_" + t2 + [];
    RenameTemplate(name, t0, t1, t2, []);
  }

  /** Applying the rule to a name it produced (with an extension) gives
      Amite_Amite_t0_Maxt1: the prefix becomes the first token and the tokens
      shift right. */
  lemma RenameOfRenamed(r: string, t0: string, t1: string, t2: string, ext: string)
    requires r == "Amite_" + t0 + "_" + t1 + "_Max" + t2 + ext
    requires '_' !in t0 && '_' !in t1
    requires ext != [] && ext[0] == '.' && '.' !in ext[1..]
    ensures RenameFile(r) == "Amite_Amite_" + t0 + "_Max" + t1 + ext
  {
    var base := "Amite_" + t0 + "_" + t1 + "_Max" + t2;
    assert r == base + ext;
    assert base[0] == 'A';
    SplitExtUnique(r, base, ext);
    assert base == "Amite" + "_" + t0 + "_" + t1 + ("_Max" + t2);
    RenameTemplate(r, "Amite", t0, t1, "_Max" + t2);
  }

  /** Applying the rule twice to a name with three or more tokens and an
      extension gives Amite_Amite_t0_Maxt1 plus the extension. */
  lemma RenameTwice(name: string)
    requires |Split(SplitExt(name).0, '_')| >= 3
    requires Ext(name) != []
    ensures var parts := Split(SplitExt(name).0, '_');
      RenameFile(RenameFile(name)) == "Amite_Amite_" + parts[0] + "_Max" + parts[1] + Ext(name)
  {
    var parts := Split(SplitExt(name).0, '_');
    RenameOfRenamed(RenameFile(name), parts[0], parts[1], parts[2], Ext(name));
  }

  /** "202309_NOAA_precip.tif" becomes "Amite_202309_NOAA_Maxprecip.tif", and
      renaming that again gives "Amite_Amite_202309_MaxNOAA.tif": the rule is
      not idempotent. */
  lemma RenameExample(period: string, source: string, kind: string, ext: string)
    requires period == "202309" && source == "NOAA" && kind == "precip" && ext == ".tif"
    ensures RenameFile(period + "_" + source + "_" + kind + ext)
         == "Amite_" + period + "_" + source + "_Max" + kind + ext
    ensures RenameFile(RenameFile(period + "_" + source + "_" + kind + ext))
         == "Amite_Amite_" + period + "_Max" + source + ext
    ensures RenameFile(RenameFile(period + "_" + source + "_" + kind + ext))
         != RenameFile(period + "_" + source + "_" + kind + ext)
  {
    var name := period + "_" + source + "_" + kind + ext;
    RenameThreeTokens(name, period, source, kind, ext);
    var r := RenameFile(name);
    RenameOfRenamed(r, period, source, kind, ext);
    assert |RenameFile(r)| == 30 && |r| == 31;
  }

  /** The rule has fixed points: with every token "Amite", the renamed name
      Amite_Amite_Amite_MaxAmite plus an extension is left as it is. */
  lemma RenameFixedPoint(a: string, ext: string)
    requires a == "Amite"
    requires ext != [] && ext[0] == '.' && '.' !in ext[1..]
    ensures RenameFile("Amite_" + a + "_" + a + "_Max" + a + ext) == "Amite_" + a + "_" + a + "_Max" + a + ext
  {
    RenameOfRenamed("Amite_" + a + "_" + a + "_Max" + a + ext, a, a, a, ext);
    assert "Amite_Amite_" == "Amite_" + a + "_";
  }

  /** "justonename.tif" has a single token and is kept. */
  lemma KeepExample(base: string, ext: string)
    requires base == "justonename" && ext == ".tif"
    ensures RenameFile(base + ext) == base + ext
  {
    assert base[0] != '.';
    SplitExtUnique(base + ext, base, ext);
    SplitWithoutSep(base, '_');
  }

  /** One rename performed (and reported) by process_folder. */
  datatype Move = Move(from: string, to: string)

  /** The state a pass leaves behind: the folder's entries, the renames done
      in order, and whether it ran to the end (false when os.rename raised). */
  datatype PassResult = PassResult(entries: set<string>, log: seq<Move>, completed: bool)

  /** Every rename in `log` takes a name of the snapshot `todo` to its name under `rule`. */
  predicate FromSnapshot(rule: string -> string, log: seq<Move>, todo: seq<string>) {
    forall k :: 0 <= k < |log| ==> log[k].from in todo && log[k].to == rule(log[k].from)
  }

  /** No name is renamed twice, and no name created by an earlier rename is renamed. */
  predicate VisitsOnce(log: seq<Move>) {
    forall i, j :: 0 <= i < j < |log| ==> log[j].from != log[i].to && log[j].from != log[i].from
  }

  /** `todo` lists names present in `entries`, each once (a snapshot not yet walked). */
  predicate Pending(todo: seq<string>, entries: set<string>) {
    (forall n :: n in todo ==> n in entries) &&
    (forall i, j :: 0 <= i < j < |todo| ==> todo[i] != todo[j])
  }

  /** The renames `rule` asks for over a listing, in listing order: one per
      name whose new name differs, and no other. */
  function Moves(rule: string -> string, todo: seq<string>): (ms: seq<Move>)
    ensures FromSnapshot(rule, ms, todo)
    ensures forall k :: 0 <= k < |ms| ==> ms[k].to != ms[k].from
    ensures forall n :: n in todo && rule(n) != n ==> Move(n, rule(n)) in ms
  {
    if todo == [] then []
    else
      var rest := Moves(rule, todo[1..]);
      assert forall x :: x in todo[1..] ==> x in todo;
      assert forall n :: n in todo ==> n == todo[0] || n in todo[1..];
      if rule(todo[0]) == todo[0] then rest
      else [Move(todo[0], rule(todo[0]))] + rest
  }

  /** The loop of process_folder over a snapshot `todo`, starting from
      `entries`: each name whose new name under `rule` differs is renamed; the
      first rename that fails ends the run. */
  function RenamePass(rule: string -> string, entries: set<string>, todo: seq<string>): (p: PassResult)
    decreases |todo|
    ensures |p.log| <= |todo|
    ensures forall m :: m in p.log ==> m.to != m.from
  {
    if todo == [] then PassResult(entries, [], true)
    else
      var name := todo[0];
      var target := rule(name);
      if target == name then RenamePass(rule, entries, todo[1..])
      else if CanRename(entries, name, target) then
        var rest := RenamePass(rule, entries - {name} + {target}, todo[1..]);
        PassResult(rest.entries, [Move(name, target)] + rest.log, rest.completed)
      else PassResult(entries, [], false)
  }

  /** process_folder: nothing happens unless the path is an existing
      directory; otherwise the pass applies rename_file. */
  function FolderPass(kind: PathKind, entries: set<string>, listing: seq<string>): (p: PassResult)
    ensures kind != Directory ==> p.entries == entries && p.log == [] && p.completed
    ensures kind == Directory && p.completed ==> p.log == Moves(RenameFile, listing)
  {
    if kind != Directory then PassResult(entries, [], true)
    else
      PassLog(RenameFile, entries, listing);
      RenamePass(RenameFile, entries, listing)
  }

  function Froms(log: seq<Move>): set<string> {
    set m | m in log :: m.from
  }

  function Tos(log: seq<Move>): set<string> {
    set m | m in log :: m.to
  }

  /** The renames a pass performs are exactly those the rule asks for, in
      listing order; a pass that stops early has done a proper prefix of them. */
  lemma {:induction false} PassLog(rule: string -> string, entries: set<string>, todo: seq<string>)
    decreases |todo|
    ensures var p := RenamePass(rule, entries, todo);
      (p.completed ==> p.log == Moves(rule, todo)) &&
      (!p.completed ==> |p.log| < |Moves(rule, todo)| && p.log == Moves(rule, todo)[..|p.log|])
  {
    if todo != [] {
      var name := todo[0];
      var target := rule(name);
      if target == name {
        PassLog(rule, entries, todo[1..]);
      } else if CanRename(entries, name, target) {
        PassLog(rule, entries - {name} + {target}, todo[1..]);
      }
    }
  }

  /** Every rename of a pass takes a name of the snapshot to its new name. */
  lemma PassLogFrom(rule: string -> string, entries: set<string>, todo: seq<string>)
    ensures FromSnapshot(rule, RenamePass(rule, entries, todo).log, todo)
  {
    PassLog(rule, entries, todo);
  }

  /** The rest of a pending snapshot is pending and no longer holds its first name. */
  lemma PendingTail(todo: seq<string>, entries: set<string>)
    requires todo != [] && Pending(todo, entries)
    ensures Pending(todo[1..], entries)
    ensures todo[0] !in todo[1..]
  {
    var tail := todo[1..];
    forall i, j | 0 <= i < j < |tail| ensures tail[i] != tail[j] {
      assert tail[i] == todo[i + 1] && tail[j] == todo[j + 1];
    }
    forall n | n in tail ensures n in entries && n != todo[0] {
      var k :| 0 <= k < |tail| && tail[k] == n;
      assert n == todo[k + 1];
    }
  }

  /** After its first name is renamed, the rest of a pending snapshot is still pending. */
  lemma PendingMoved(todo: seq<string>, entries: set<string>, target: string)
    requires todo != [] && Pending(todo, entries)
    ensures Pending(todo[1..], entries - {todo[0]} + {target})
  {
    PendingTail(todo, entries);
  }

  /** Set algebra for one rename followed by the rest of a pass. */
  lemma RenameStep(entries: set<string>, name: string, target: string,
                   froms: set<string>, tos: set<string>)
    requires target !in froms
    ensures (entries - {name} + {target}) - froms + tos
         == (entries - ({name} + froms)) + ({target} + tos)
  {
  }

  /** Over a snapshot that lists present names once each, the entries after a
      pass are the old ones minus the renamed names plus their new names. */
  lemma {:induction false} PassEntries(rule: string -> string, entries: set<string>, todo: seq<string>)
    requires Pending(todo, entries)
    decreases |todo|
    ensures var p := RenamePass(rule, entries, todo);
      p.entries == (entries - Froms(p.log)) + Tos(p.log)
  {
    if todo != [] {
      var name := todo[0];
      var target := rule(name);
      var tail := todo[1..];
      PendingTail(todo, entries);
      if target == name {
        PassEntries(rule, entries, tail);
      } else if CanRename(entries, name, target) {
        var e2 := entries - {name} + {target};
        PendingMoved(todo, entries, target);
        PassEntries(rule, e2, tail);
        PassLogFrom(rule, e2, tail);
        var rest := RenamePass(rule, e2, tail);
        var p := RenamePass(rule, entries, todo);
        assert p.log == [Move(name, target)] + rest.log;
        assert Froms(p.log) == {name} + Froms(rest.log);
        assert Tos(p.log) == {target} + Tos(rest.log);
        assert target !in Froms(rest.log) by {
          forall m | m in rest.log ensures m.from != target {
            var k :| 0 <= k < |rest.log| && rest.log[k] == m;
            assert m.from in tail;
          }
        }
        RenameStep(entries, name, target, Froms(rest.log), Tos(rest.log));
      }
    }
  }

  /** A pass over a snapshot that lists present names once each renames every
      name at most once, and never renames a name it created itself: a file
      renamed during the run is not revisited. */
  lemma {:induction false} PassVisitsOnce(rule: string -> string, entries: set<string>, todo: seq<string>)
    requires Pending(todo, entries)
    decreases |todo|
    ensures VisitsOnce(RenamePass(rule, entries, todo).log)
  {
    if todo != [] {
      var name := todo[0];
      var target := rule(name);
      var tail := todo[1..];
      PendingTail(todo, entries);
      if target == name {
        PassVisitsOnce(rule, entries, tail);
      } else if CanRename(entries, name, target) {
        var e2 := entries - {name} + {target};
        PendingMoved(todo, entries, target);
        PassVisitsOnce(rule, e2, tail);
        PassLogFrom(rule, e2, tail);
        var rest := RenamePass(rule, e2, tail);
        var p := RenamePass(rule, entries, todo);
        assert p.log == [Move(name, target)] + rest.log;
        forall i, j | 0 <= i < j < |p.log|
          ensures p.log[j].from != p.log[i].to && p.log[j].from != p.log[i].from
        {
          assert p.log[j] == rest.log[j - 1];
          assert rest.log[j - 1].from in tail;
          if i == 0 {
            assert p.log[0] == Move(name, target);
            assert rest.log[j - 1].from in entries;
          } else {
            assert p.log[i] == rest.log[i - 1];
          }
        }
      }
    }
  }

  /** Prefixes a pass result with renames already done. */
  function After(log: seq<Move>, p: PassResult): PassResult {
    PassResult(p.entries, log + p.log, p.completed)
  }

  /** One step of a pass whose first name keeps its name. */
  lemma PassKeep(rule: string -> string, entries: set<string>, todo: seq<string>)
    requires todo != [] && rule(todo[0]) == todo[0]
    ensures RenamePass(rule, entries, todo) == RenamePass(rule, entries, todo[1..])
  {
  }

  /** One step of a pass whose first name is renamed: the rename comes first
      in the log, and the rest of the pass starts from the changed entries. */
  lemma PassMove(rule: string -> string, log: seq<Move>, entries: set<string>, todo: seq<string>)
    requires todo != [] && rule(todo[0]) != todo[0] && CanRename(entries, todo[0], rule(todo[0]))
    ensures After(log, RenamePass(rule, entries, todo))
         == After(log + [Move(todo[0], rule(todo[0]))],
                  RenamePass(rule, entries - {todo[0]} + {rule(todo[0])}, todo[1..]))
  {
    var rest := RenamePass(rule, entries - {todo[0]} + {rule(todo[0])}, todo[1..]);
    assert log + ([Move(todo[0], rule(todo[0]))] + rest.log) == log + [Move(todo[0], rule(todo[0]))] + rest.log;
  }

  /** A pass whose first rename fails stops there with the entries unchanged. */
  lemma PassStop(rule: string -> string, entries: set<string>, todo: seq<string>)
    requires todo != [] && rule(todo[0]) != todo[0] && !CanRename(entries, todo[0], rule(todo[0]))
    ensures RenamePass(rule, entries, todo) == PassResult(entries, [], false)
  {
  }

  /** process_folder(folder): checks that the path is an existing directory,
      then walks the listing snapshot taken once and renames every entry whose
      computed name differs. A failing os.rename ends the run. */
  method ProcessFolder(folder: Folder, listing: seq<string>) returns (log: seq<Move>, completed: bool)
    requires folder.kind == Directory ==> Enumerates(listing, folder.entries)
    modifies folder
    ensures folder.kind == old(folder.kind)
    ensures PassResult(folder.entries, log, completed) == FolderPass(old(folder.kind), old(folder.entries), listing)
  {
    if folder.kind != Directory {
      return [], true;
    }
    var rename: string -> string := RenameFile;
    log := [];
    var i := 0;
    while i < |listing|
      invariant 0 <= i <= |listing|
      invariant folder.kind == old(folder.kind)
      invariant RenamePass(rename, old(folder.entries), listing)
        == After(log, RenamePass(rename, folder.entries, listing[i..]))
    {
      var name := listing[i];
      var target := rename(name);
      assert listing[i..][0] == name && listing[i..][1..] == listing[i + 1..];
      if target != name {
        ghost var before := folder.entries;
        var ok := folder.Rename(name, target);
        if !ok {
          PassStop(rename, before, listing[i..]);
          assert log + [] == log;
          return log, false;
        }
        PassMove(rename, log, before, listing[i..]);
        log := log + [Move(name, target)];
      } else {
        PassKeep(rename, folder.entries, listing[i..]);
      }
      i := i + 1;
    }
    assert listing[i..] == [];
    assert log + [] == log;
    completed := true;
  }

  /** main: process each configured folder in turn. An exception out of one
      folder ends the program, so `done` folders are fully processed, folder
      `done` (if any) was cut short, and the rest are untouched. */
  method RenameFolders(folders: seq<Folder>, listings: seq<seq<string>>) returns (done: nat)
    requires |listings| == |folders|
    requires forall i, j :: 0 <= i < j < |folders| ==> folders[i] != folders[j]
    requires forall i :: 0 <= i < |folders| && folders[i].kind == Directory ==>
      Enumerates(listings[i], folders[i].entries)
    modifies set f | f in folders
    ensures done <= |folders|
    ensures forall i :: 0 <= i < |folders| ==> folders[i].kind == old(folders[i].kind)
    ensures forall i :: 0 <= i < done ==>
      var p := FolderPass(old(folders[i].kind), old(folders[i].entries), listings[i]);
      p.completed && folders[i].entries == p.entries
    ensures done < |folders| ==>
      var p := FolderPass(old(folders[done].kind), old(folders[done].entries), listings[done]);
      !p.completed && folders[done].entries == p.entries
    ensures forall i :: done < i < |folders| ==> folders[i].entries == old(folders[i].entries)
  {
    done := 0;
    while done < |folders|
      invariant done <= |folders|
      invariant forall i :: 0 <= i < |folders| ==> folders[i].kind == old(folders[i].kind)
      invariant forall i :: 0 <= i < done ==>
        var p := FolderPass(old(folders[i].kind), old(folders[i].entries), listings[i]);
        p.completed && folders[i].entries == p.entries
      invariant forall i :: done <= i < |folders| ==> folders[i].entries == old(folders[i].entries)
    {
      var log, ok := ProcessFolder(folders[done], listings[done]);
      if !ok {
        return;
      }
      done := done + 1;
    }
  }
}
