/** Name-level string operations shared by the three scripts: the suffix test
    (str.endswith), splitting a bare file name into base and extension
    (os.path.splitext on a name without separators) and splitting on a
    separator character (str.split with a one-character separator). */
module PathNames {

  /** `s` ends with `suffix` (case-sensitive, as str.endswith). */
  predicate EndsWith(s: string, suffix: string) {
    |suffix| <= |s| && s[|s| - |suffix|..] == suffix
  }

  /** Some character of `s` is not a dot. */
  predicate HasNonDot(s: string) {
    exists k :: 0 <= k < |s| && s[k] != '.'
  }

  /** Every dot in `s` is preceded only by dots: such a name has no extension
      (".bashrc", "...", "README"). */
  predicate NoExtension(s: string) {
    forall i, j :: 0 <= j < i < |s| && s[i] == '.' ==> s[j] == '.'
  }

  /** The conditions under which (base, ext) is the result of splitting base + ext. */
  predicate ValidSplit(base: string, ext: string) {
    if ext == [] then NoExtension(base)
    else ext[0] == '.' && '.' !in ext[1..] && HasNonDot(base)
  }

  /** Index of the last occurrence of `c` in `s`, or -1 when there is none. */
  function LastIndex(s: string, c: char): (i: int)
    ensures -1 <= i < |s|
    ensures i >= 0 ==> s[i] == c
    ensures forall k :: i < k < |s| ==> s[k] != c
  {
    if s == [] then -1
    else if s[|s| - 1] == c then |s| - 1
    else LastIndex(s[..|s| - 1], c)
  }

  /** os.path.splitext on a bare name: the extension starts at the last dot,
      provided some non-dot character comes before that dot; otherwise it is "". */
  function SplitExt(name: string): (r: (string, string))
    ensures r.0 + r.1 == name
    ensures ValidSplit(r.0, r.1)
  {
    var d := LastIndex(name, '.');
    if d > 0 && HasNonDot(name[..d]) then
      assert name[..d] + name[d..] == name;
      (name[..d], name[d..])
    else
      (name, [])
  }

  /** The extension part of `name` ("" when it has none). */
  function Ext(name: string): string {
    SplitExt(name).1
  }

  /** SplitExt is the only split that satisfies ValidSplit: together with the
      ensures of SplitExt, (b, e) == SplitExt(b + e) exactly when ValidSplit(b, e). */
  lemma SplitExtUnique(name: string, base: string, ext: string)
    requires base + ext == name && ValidSplit(base, ext)
    ensures SplitExt(name) == (base, ext)
  {
    var d := LastIndex(name, '.');
    if ext == [] {
      assert base == name;
    } else {
      assert name[|base|] == ext[0] == '.';
      forall k | |base| < k < |name| ensures name[k] != '.' {
        assert name[k] == ext[1..][k - |base| - 1];
      }
      assert d == |base|;
      assert name[..d] == base;
    }
  }

  /** str.split(sep): the pieces between occurrences of `sep`; always at least one piece. */
  function Split(s: string, sep: char): (parts: seq<string>)
    ensures |parts| >= 1
    ensures forall k :: 0 <= k < |parts| ==> sep !in parts[k]
  {
    if s == [] then [[]]
    else
      var rest := Split(s[1..], sep);
      if s[0] == sep then [[]] + rest
      else [[s[0]] + rest[0]] + rest[1..]
  }

  /** Joining tokens with a separator. None of the scripts joins strings;
      Join is here only to state that Split loses nothing (JoinSplit, SplitJoin). */
  function Join(parts: seq<string>, sep: char): string
    requires |parts| >= 1
  {
    if |parts| == 1 then parts[0]
    else parts[0] + [sep] + Join(parts[1..], sep)
  }

  /** Number of occurrences of `c` in `s`. */
  function Count(s: string, c: char): nat {
    if s == [] then 0 else (if s[0] == c then 1 else 0) + Count(s[1..], c)
  }

  /** Joining the pieces of a split gives the string back. */
  lemma {:induction false} JoinSplit(s: string, sep: char)
    ensures Join(Split(s, sep), sep) == s
  {
    if s != [] {
      var rest := Split(s[1..], sep);
      JoinSplit(s[1..], sep);
      if s[0] == sep {
        assert Split(s, sep) == [[]] + rest;
        assert Split(s, sep)[1..] == rest;
      } else {
        var parts := Split(s, sep);
        assert parts == [[s[0]] + rest[0]] + rest[1..];
        if |rest| == 1 {
          assert parts == [[s[0]] + rest[0]];
          assert s == [s[0]] + s[1..];
        } else {
          assert parts[1..] == rest[1..];
          assert Join(rest, sep) == rest[0] + [sep] + Join(rest[1..], sep);
          assert s == [s[0]] + s[1..];
        }
      }
    }
  }

  /** A split yields one piece more than there are separators. */
  lemma {:induction false} SplitLength(s: string, sep: char)
    ensures |Split(s, sep)| == Count(s, sep) + 1
  {
    if s != [] {
      SplitLength(s[1..], sep);
    }
  }

  /** A string without the separator splits into itself alone. */
  lemma {:induction false} SplitWithoutSep(a: string, sep: char)
    requires sep !in a
    ensures Split(a, sep) == [a]
  {
    if a != [] {
      SplitWithoutSep(a[1..], sep);
      assert a == [a[0]] + a[1..];
    }
  }

  /** A separator-free piece followed by the separator splits off as the first piece. */
  lemma {:induction false} SplitCons(a: string, sep: char, t: string)
    requires sep !in a
    ensures Split(a + [sep] + t, sep) == [a] + Split(t, sep)
  {
    if a == [] {
      assert a + [sep] + t == [sep] + t;
      assert ([sep] + t)[1..] == t;
    } else {
      var s := a + [sep] + t;
      assert s[0] == a[0] && s[1..] == a[1..] + [sep] + t;
      SplitCons(a[1..], sep, t);
      assert [a[0]] + a[1..] == a;
    }
  }

  /** Splitting a join of separator-free pieces gives the pieces back. */
  lemma {:induction false} SplitJoin(parts: seq<string>, sep: char)
    requires |parts| >= 1
    requires forall k :: 0 <= k < |parts| ==> sep !in parts[k]
    ensures Split(Join(parts, sep), sep) == parts
  {
    if |parts| == 1 {
      SplitWithoutSep(parts[0], sep);
    } else {
      SplitJoin(parts[1..], sep);
      SplitCons(parts[0], sep, Join(parts[1..], sep));
      assert [parts[0]] + parts[1..] == parts;
    }
  }

  /** The first piece of a + t is a, when a is separator-free and t is empty
      or starts with the separator. */
  lemma {:induction false} SplitHead(a: string, sep: char, t: string)
    requires sep !in a
    requires t == [] || t[0] == sep
    ensures Split(a + t, sep)[0] == a
  {
    if t == [] {
      assert a + t == a;
      SplitWithoutSep(a, sep);
    } else {
      assert a + t == a + [sep] + t[1..];
      SplitCons(a, sep, t[1..]);
    }
  }

  /** The first three pieces of a0 sep a1 sep a2 t, for separator-free
      a0, a1, a2 and a t that is empty or starts with the separator. */
  lemma SplitFirstThree(a0: string, a1: string, a2: string, sep: char, t: string)
    requires sep !in a0 && sep !in a1 && sep !in a2
    requires t == [] || t[0] == sep
    ensures var parts := Split(a0 + [sep] + a1 + [sep] + a2 + t, sep);
      |parts| >= 3 && parts[0] == a0 && parts[1] == a1 && parts[2] == a2
  {
    assert a0 + [sep] + a1 + [sep] + a2 + t == a0 + [sep] + (a1 + [sep] + (a2 + t));
    SplitCons(a0, sep, a1 + [sep] + (a2 + t));
    SplitCons(a1, sep, a2 + t);
    SplitHead(a2, sep, t);
  }
}
