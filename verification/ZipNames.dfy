/** Safe and distinct entry names for an archive. */
module ZipNames {
  import opened Sets

  // ----- cleaning a name

  predicate Slash(c: char) {
    c == '/' || c == '\\'
  }

  /** Every run of slashes becomes one underscore. */
  function Flat(s: string, inRun: bool): string {
    if s == "" then ""
    else if Slash(s[0]) then (if inRun then "" else "_") + Flat(s[1..], true)
    else [s[0]] + Flat(s[1..], false)
  }

  function DropDots(s: string): (r: string)
    ensures r != "" ==> r[0] != '.'
  {
    if s != "" && s[0] == '.' then DropDots(s[1..]) else s
  }

  function Clean(name: string): string {
    var c := DropDots(Flat(if name == "" then "file" else name, false));
    if c == "" then "file" else c
  }

  /** A name that stays inside the directory it is extracted to. */
  ghost predicate Safe(s: string) {
    s != "" && s[0] != '.' && forall i :: 0 <= i < |s| ==> !Slash(s[i])
  }

  lemma {:induction false} FlatHasNoSlash(s: string, inRun: bool)
    ensures forall i :: 0 <= i < |Flat(s, inRun)| ==> !Slash(Flat(s, inRun)[i])
  {
    if s != "" {
      FlatHasNoSlash(s[1..], Slash(s[0]));
    }
  }

  lemma CleanIsSafe(name: string)
    ensures Safe(Clean(name))
  {
    hide Flat, DropDots, Safe;
    var whole := if name == "" then "file" else name;
    FlatHasNoSlash(whole, false);
    RestIsSafe(Flat(whole, false));
    SafeDefault();
  }

  lemma {:induction false} RestIsSafe(f: string)
    requires forall i :: 0 <= i < |f| ==> !Slash(f[i])
    ensures DropDots(f) != "" ==> Safe(DropDots(f))
  {
    hide Slash;
    if f != "" && f[0] == '.' {
      RestIsSafe(f[1..]);
    }
  }

  lemma SafeDefault()
    ensures Safe("file")
  {
  }

  // ----- what cleaning keeps

  ghost predicate NoSlash(s: string) {
    forall i :: 0 <= i < |s| ==> s[i] != '/' && s[i] != '\\'
  }

  ghost predicate OnlySlashes(s: string) {
    s != "" && forall i :: 0 <= i < |s| ==> s[i] == '/' || s[i] == '\\'
  }

  lemma {:induction false} FlatJoin(a: string, b: string, inRun: bool)
    ensures Flat(a + b, inRun) == Flat(a, inRun) + Flat(b, if a == "" then inRun else Slash(a[|a| - 1]))
    decreases |a|
  {
    hide Slash;
    if a == "" {
      assert a + b == b;
    } else {
      assert (a + b)[1..] == a[1..] + b;
      FlatJoin(a[1..], b, Slash(a[0]));
    }
  }

  lemma {:induction false} FlatKeeps(s: string, inRun: bool)
    requires NoSlash(s)
    ensures Flat(s, inRun) == s
  {
    if s != "" {
      FlatKeeps(s[1..], false);
    }
  }

  lemma {:induction false} FlatRun(run: string)
    requires OnlySlashes(run)
    ensures Flat(run, true) == "" && Flat(run, false) == "_"
  {
    if |run| > 1 {
      FlatRun(run[1..]);
    } else {
      assert run[1..] == "";
    }
  }

  /** Every maximal run of slashes becomes one underscore, and everything else is kept in order. */
  lemma OneUnderscorePerRun(a: string, run: string, b: string)
    requires OnlySlashes(run)
    requires a != "" ==> a[|a| - 1] != '/' && a[|a| - 1] != '\\'
    requires b != "" ==> b[0] != '/' && b[0] != '\\'
    ensures Flat(a + run + b, false) == Flat(a, false) + "_" + Flat(b, false)
    ensures NoSlash(a) ==> Flat(a, false) == a
  {
    FlatJoin(a + run, b, false);
    FlatJoin(a, run, false);
    FlatRun(run);
    assert (a + run)[|a + run| - 1] == run[|run| - 1];
    if NoSlash(a) {
      FlatKeeps(a, false);
    }
  }

  lemma {:induction false} DotsDropped(dots: string, rest: string)
    requires (forall i :: 0 <= i < |dots| ==> dots[i] == '.') && (rest != "" ==> rest[0] != '.')
    ensures DropDots(dots + rest) == rest
  {
    if dots == "" {
      assert dots + rest == rest;
    } else {
      assert (dots + rest)[1..] == dots[1..] + rest;
      DotsDropped(dots[1..], rest);
    }
  }

  /** Of the name with its runs of slashes replaced, the leading dots go; an empty name is called "file". */
  lemma CleanIs(name: string, dots: string, rest: string)
    requires (forall i :: 0 <= i < |dots| ==> dots[i] == '.') && (rest != "" ==> rest[0] != '.')
    requires name != "" && Flat(name, false) == dots + rest
    ensures Clean(name) == if rest == "" then "file" else rest
    ensures Clean("") == "file"
  {
    hide Flat;
    DotsDropped(dots, rest);
    FlatKeeps("file", false);
    DotsDropped("", "file");
    assert "" + "file" == "file";
  }

  /** A name without slashes that does not begin with a dot is kept. */
  lemma CleanKeeps(name: string)
    requires name != "" && NoSlash(name) && name[0] != '.'
    ensures Clean(name) == name
  {
    FlatKeeps(name, false);
    assert "" + name == name;
    CleanIs(name, "", name);
  }

  // ----- numbered names

  function Decimal(n: nat): (s: string)
    ensures |s| > 0
  {
    if n < 10 then [Digit(n)] else Decimal(n / 10) + [Digit(n % 10)]
  }

  function Digit(d: nat): char
    requires d < 10
  {
    "0123456789"[d]
  }

  lemma DigitInjective(a: nat, b: nat)
    requires a < 10 && b < 10 && Digit(a) == Digit(b)
    ensures a == b
  {
  }

  lemma {:induction false} DecimalInjective(m: nat, n: nat)
    requires Decimal(m) == Decimal(n)
    ensures m == n
  {
    var s, t := Decimal(m), Decimal(n);
    assert s[|s| - 1] == Digit(m % 10) && t[|t| - 1] == Digit(n % 10);
    DigitInjective(m % 10, n % 10);
    if m >= 10 && n >= 10 {
      assert s[..|s| - 1] == Decimal(m / 10) && t[..|t| - 1] == Decimal(n / 10);
      DecimalInjective(m / 10, n / 10);
    }
  }

  lemma {:induction false} DecimalHasNoSlash(n: nat)
    ensures forall i :: 0 <= i < |Decimal(n)| ==> !Slash(Decimal(n)[i])
  {
    if n >= 10 {
      DecimalHasNoSlash(n / 10);
    }
    assert !Slash(Digit(n % 10));
  }

  /** The number a decimal numeral stands for. */
  function Read(s: string): int {
    if s == "" then 0 else 10 * Read(s[..|s| - 1]) + (s[|s| - 1] as int - '0' as int)
  }

  /** Numbers are written as usual: no leading zero, and the numeral stands for the number. */
  lemma {:induction false} DecimalReads(n: nat)
    ensures Read(Decimal(n)) == n && (n > 0 ==> Decimal(n)[0] != '0')
    ensures forall i :: 0 <= i < |Decimal(n)| ==> '0' <= Decimal(n)[i] <= '9'
  {
    var s := Decimal(n);
    if n >= 10 {
      DecimalReads(n / 10);
      assert s[..|s| - 1] == Decimal(n / 10);
    } else {
      assert s[..|s| - 1] == "" && Read("") == 0;
    }
    DigitValue(n % 10);
  }

  lemma DigitValue(d: nat)
    requires d < 10
    ensures Digit(d) as int - '0' as int == d && '0' <= Digit(d) <= '9'
  {
  }

  /** The position of the last dot, or -1. */
  function LastDot(s: string): (k: int)
    ensures -1 <= k < |s|
  {
    if s == "" then -1 else if s[|s| - 1] == '.' then |s| - 1 else LastDot(s[..|s| - 1])
  }

  function Stem(s: string): string {
    if LastDot(s) > 0 then s[..LastDot(s)] else s
  }

  function Ext(s: string): string {
    if LastDot(s) > 0 then s[LastDot(s)..] else ""
  }

  /** The number goes between the stem and the extension. */
  function Candidate(name: string, n: nat): string {
    Stem(name) + " (" + Decimal(n) + ")" + Ext(name)
  }

  lemma {:induction false} LastDotIs(s: string, k: int)
    requires -1 <= k < |s| && (k >= 0 ==> s[k] == '.') && forall i :: k < i < |s| ==> s[i] != '.'
    ensures LastDot(s) == k
    decreases |s|
  {
    if s != "" && k < |s| - 1 {
      LastDotIs(s[..|s| - 1], k);
    }
  }

  /** "scan.pdf" becomes "scan (2).pdf"; a name without an extension, or of nothing else, gets the number at its end. */
  lemma CandidateIs(stem: string, ext: string, n: nat)
    requires stem != "" && forall i :: 0 <= i < |ext| ==> ext[i] != '.'
    ensures Candidate(stem + "." + ext, n) == stem + " (" + Decimal(n) + ")" + "." + ext
    ensures (forall i :: 0 < i < |stem| ==> stem[i] != '.') ==> Candidate(stem, n) == stem + " (" + Decimal(n) + ")"
  {
    hide Decimal;
    var whole := stem + "." + ext;
    LastDotIs(whole, |stem|);
    assert whole[..|stem|] == stem && whole[|stem|..] == "." + ext;
    var x := stem + " (" + Decimal(n) + ")";
    assert x + ("." + ext) == x + "." + ext;
    if forall i :: 0 < i < |stem| ==> stem[i] != '.' {
      LastDotIs(stem, if stem[0] == '.' then 0 else -1);
      assert x + "" == x;
    }
  }

  lemma CandidateInjective(name: string, m: nat, n: nat)
    requires Candidate(name, m) == Candidate(name, n)
    ensures m == n
  {
    hide Decimal, Stem, Ext;
    var p, q := Stem(name) + " (", ")" + Ext(name);
    Grouped(p + Decimal(m), Ext(name));
    Grouped(p + Decimal(n), Ext(name));
    Sandwich(p, Decimal(m), Decimal(n), q);
    DecimalInjective(m, n);
  }

  lemma Grouped(x: string, e: string)
    ensures x + ")" + e == x + (")" + e)
  {
  }

  lemma Sandwich(p: string, a: string, b: string, q: string)
    requires p + a + q == p + b + q
    ensures a == b
  {
    assert |p + a + q| == |p| + |a| + |q|;
    Middle(p, a, q);
    Middle(p, b, q);
  }

  lemma Middle(p: string, a: string, q: string)
    ensures (p + a + q)[|p|..|p| + |a|] == a
  {
  }

  lemma CandidateIsSafe(name: string, n: nat)
    requires Safe(name)
    ensures Safe(Candidate(name, n))
  {
    hide Decimal, LastDot;
    DecimalHasNoSlash(n);
    var c := Candidate(name, n);
    assert !Slash(' ') && !Slash('(') && !Slash(')');
    assert Stem(name) != "" && Stem(name)[0] == name[0] && c[0] == name[0];
    forall i | 0 <= i < |c| ensures !Slash(c[i]) {
    }
  }

  // ----- the whole list

  ghost predicate Distinct(names: seq<string>) {
    forall i, j :: 0 <= i < j < |names| ==> names[i] != names[j]
  }

  /** The numbers from 2 to below n are taken for this name. */
  ghost predicate UsedBelow(name: string, taken: seq<string>, n: nat) {
    forall k: nat :: 2 <= k < n ==> Candidate(name, k) in taken
  }

  /** A name not yet taken is kept; another one gets the first free number from 2 on. */
  ghost predicate Chosen(name: string, taken: seq<string>, result: string) {
    if name in taken then exists n: nat :: n >= 2 && result == Candidate(name, n) && UsedBelow(name, taken, n)
    else result == name
  }

  lemma NoNames()
    ensures Distinct([])
  {
  }

  lemma OneMore(names: seq<string>, s: string)
    requires Distinct(names) && s !in names
    ensures Distinct(names + [s])
  {
  }

  lemma Kept(name: string, taken: seq<string>)
    requires name !in taken
    ensures Chosen(name, taken, name)
  {
  }

  lemma Numbered(name: string, taken: seq<string>, n: nat)
    requires name in taken && n >= 2 && UsedBelow(name, taken, n)
    ensures Chosen(name, taken, Candidate(name, n))
  {
    hide Candidate, UsedBelow;
  }

  lemma UsedStays(name: string, taken: seq<string>, more: string, n: nat)
    requires UsedBelow(name, taken, n)
    ensures UsedBelow(name, taken + [more], n)
    ensures more == Candidate(name, n) ==> UsedBelow(name, taken + [more], n + 1)
  {
    hide Candidate;
  }

  lemma NoneBelow(name: string, taken: seq<string>)
    ensures UsedBelow(name, taken, 2)
  {
  }

  lemma UsedOn(name: string, taken: seq<string>, m: nat, n: nat)
    requires UsedBelow(name, taken, m) && forall k: nat :: m <= k < n ==> Candidate(name, k) in taken
    ensures UsedBelow(name, taken, n)
  {
    hide Candidate;
  }

  /** The first free number, which exists because only finitely many names are taken. */
  method FreeNumber(seen: map<string, nat>, name: string, first: nat) returns (n: nat)
    ensures n >= first && Candidate(name, n) !in seen
    ensures forall k :: first <= k < n ==> Candidate(name, k) in seen
  {
    hide Candidate;
    n := first;
    ghost var left := seen.Keys;
    while Candidate(name, n) in seen
      invariant n >= first && left <= seen.Keys
      invariant forall k :: first <= k < n ==> Candidate(name, k) in seen
      invariant forall k: nat :: k >= n && Candidate(name, k) in seen ==> Candidate(name, k) in left
      decreases |left|
    {
      var tried := Candidate(name, n);
      ProperSubsetSmaller(left - {tried}, left);
      forall k: nat | k >= n + 1 && Candidate(name, k) in seen ensures Candidate(name, k) in left - {tried} {
        if Candidate(name, k) == tried {
          CandidateInjective(name, k, n);
        }
      }
      left := left - {tried};
      n := n + 1;
    }
  }

  method UniqueNames(entries: seq<string>) returns (names: seq<string>)
    ensures |names| == |entries| && Distinct(names)
    ensures forall i :: 0 <= i < |names| ==> Safe(names[i]) && Chosen(Clean(entries[i]), names[..i], names[i])
  {
    hide Candidate, Clean, Safe, Distinct, Chosen, UsedBelow;
    assert Distinct([]) by {
      NoNames();
    }
    var seen: map<string, nat> := map[];
    names := [];
    for i := 0 to |entries|
      invariant |names| == i && Distinct(names)
      invariant forall s :: s in seen <==> s in names
      invariant forall s :: s in seen ==> seen[s] >= 1 && UsedBelow(s, names, seen[s] + 1)
      invariant forall k :: 0 <= k < i ==> Safe(names[k]) && Chosen(Clean(entries[k]), names[..k], names[k])
    {
      var name := Clean(entries[i]);
      CleanIsSafe(entries[i]);
      var result := name;
      ghost var counts := seen;
      if name !in seen {
        Kept(name, names);
        NoneBelow(name, names);
        seen := seen[name := 1];
      } else {
        var n := FreeNumber(seen, name, seen[name] + 1);
        UsedOn(name, names, seen[name] + 1, n);
        Numbered(name, names, n);
        NoneBelow(Candidate(name, n), names);
        result := Candidate(name, n);
        CandidateIsSafe(name, n);
        seen := seen[name := n][result := 1];
      }
      ghost var before := names;
      names := names + [result];
      OneMore(before, result);
      forall s | s in seen ensures UsedBelow(s, names, seen[s] + 1) {
        UsedStays(s, before, result, if s == name && s in counts then seen[s] else seen[s] + 1);
      }
      forall k | 0 <= k < i ensures Chosen(Clean(entries[k]), names[..k], names[k]) {
        assert names[..k] == before[..k];
      }
      assert names[..i] == before;
    }
  }
}
