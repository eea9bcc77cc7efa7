/**
 * The display-name picker of the chat server (`get_random_name`): read the base
 * names file, collect one free candidate per base name (the base name itself, or
 * its first free numbered variant `name2` .. `name99`), then pick one candidate
 * at random, or fall back to a guest name `访客NNNN`.
 */
module Names {
  import opened Wrappers
  import opened Text

  /** The fallback name prefix ("guest"). */
  const GuestPrefix: string := "访客"
  /** Bounds of `randint(1000, 9999)`, both inclusive. */
  const GuestMin: nat := 1000
  const GuestMax: nat := 9999
  /** Bounds of `range(2, 100)`: suffixes 2 .. 99 are tried. */
  const FirstSuffix: nat := 2
  const SuffixLimit: nat := 100

  /** `f"{name}{i}"`: the base name followed by the digits of the suffix, and longer than the base name. */
  function Variant(base: string, i: nat): (v: string)
    ensures StartsWith(v, base) && |v| > |base| && v[|base|..] == Decimal(i)
  {
    base + Decimal(i)
  }

  /** Distinct suffixes give distinct variants of a base name. */
  lemma VariantInjective(base: string, i: nat, j: nat)
    requires Variant(base, i) == Variant(base, j)
    ensures i == j
  {
    assert Decimal(i) == Variant(base, i)[|base|..] == Variant(base, j)[|base|..] == Decimal(j);
    DecimalInjective(i, j);
  }

  /** `f"访客{n}"`: the guest prefix followed by the digits of `n`. */
  function GuestName(n: nat): (name: string)
    ensures StartsWith(name, GuestPrefix) && name[|GuestPrefix|..] == Decimal(n)
  {
    GuestPrefix + Decimal(n)
  }

  /** A name of the fallback shape: the guest prefix and a number in 1000..9999. */
  ghost predicate IsGuestName(name: string)
  {
    exists n :: GuestMin <= n <= GuestMax && name == GuestName(n)
  }

  /** Every fallback name is the two-character prefix followed by exactly four digits. */
  lemma GuestNameShape(n: nat)
    requires GuestMin <= n <= GuestMax
    ensures |GuestName(n)| == |GuestPrefix| + 4 && StartsWith(GuestName(n), GuestPrefix)
    ensures IsDigits(GuestName(n)[|GuestPrefix|..])
  {
    DecimalLength4(n);
    assert GuestName(n)[|GuestPrefix|..] == Decimal(n);
  }

  /** A name as the file yields it: not empty, and neither starting nor ending with whitespace. */
  predicate IsStrippedName(name: string)
  {
    name != "" && !IsSpace(Python, name[0]) && !IsSpace(Python, name[|name| - 1])
  }

  /** `[line.strip() for line in f if line.strip()]`: the non-blank lines, stripped, in file order. */
  function LoadNames(lines: seq<string>): (names: seq<string>)
    ensures |names| <= |lines|
    ensures forall k :: 0 <= k < |names| ==> IsStrippedName(names[k])
  {
    if lines == [] then []
    else
      var rest := LoadNames(lines[..|lines| - 1]);
      var name := Strip(Python, lines[|lines| - 1]);
      if name != "" then rest + [name] else rest
  }

  /** A line contributes a name exactly when it is not all whitespace. */
  lemma {:induction false} LoadNamesDropsBlankLines(lines: seq<string>, extra: string)
    ensures LoadNames(lines + [extra]) == if AllSpace(Python, extra) then LoadNames(lines) else LoadNames(lines) + [Strip(Python, extra)]
  {
    assert (lines + [extra])[..|lines|] == lines;
    StripEmptyIff(Python, extra);
  }

  /**
   * The inner loop `for i in range(lower, 100)`: the first suffix whose variant is not in use,
   * if any. Every suffix tried before it is taken; with no result, every suffix from `lower` on is taken.
   */
  function FirstFreeSuffix(base: string, used: set<string>, lower: nat): (r: Option<nat>)
    ensures r.Some? ==> lower <= r.value < SuffixLimit && Variant(base, r.value) !in used
    ensures r.Some? ==> forall j :: lower <= j < r.value ==> Variant(base, j) in used
    ensures r.None? ==> forall j :: lower <= j < SuffixLimit ==> Variant(base, j) in used
    decreases SuffixLimit - lower
  {
    if lower >= SuffixLimit then None
    else if Variant(base, lower) !in used then Some(lower)
    else FirstFreeSuffix(base, used, lower + 1)
  }

  /**
   * What one base name adds to `available_names`. A free base name is its own candidate; a name in
   * use contributes nothing exactly when all of `name2` .. `name99` are taken, and otherwise only
   * the variant with the smallest free suffix. Nothing contributed is in use.
   */
  function Contribution(base: string, used: set<string>): (c: seq<string>)
    ensures base !in used ==> c == [base]
    ensures base in used ==>
      (c == [] <==> forall j :: FirstSuffix <= j < SuffixLimit ==> Variant(base, j) in used)
    ensures base in used && c != [] ==>
      exists i :: FirstSuffix <= i < SuffixLimit && c == [Variant(base, i)]
        && Variant(base, i) !in used
        && forall j :: FirstSuffix <= j < i ==> Variant(base, j) in used
    ensures forall x :: x in c ==> x !in used
  {
    if base !in used then [base]
    else match FirstFreeSuffix(base, used, FirstSuffix)
      case Some(i) => [Variant(base, i)]
      case None => []
  }

  /** The `available_names` list the outer loop builds, in base-name order: at most one name per base name, none in use. */
  function Candidates(names: seq<string>, used: set<string>): (available: seq<string>)
    ensures |available| <= |names|
    ensures forall x :: x in available ==> x !in used
  {
    if names == [] then [] else Candidates(names[..|names| - 1], used) + Contribution(names[|names| - 1], used)
  }

  /** Base name `base` contributes `x`. */
  predicate Contributes(base: string, used: set<string>, x: string)
  {
    x in Contribution(base, used)
  }

  /** Every candidate is contributed by some base name. */
  lemma {:induction false} CandidatesSound(names: seq<string>, used: set<string>, x: string)
    requires x in Candidates(names, used)
    ensures exists k :: 0 <= k < |names| && Contributes(names[k], used, x)
  {
    var init := names[..|names| - 1];
    var last := names[|names| - 1];
    if x in Candidates(init, used) {
      CandidatesSound(init, used, x);
      var k :| 0 <= k < |init| && Contributes(init[k], used, x);
      assert names[k] == init[k];
    } else {
      assert Contributes(last, used, x);
    }
  }

  /** Whatever a base name contributes is a candidate. */
  lemma {:induction false} CandidatesComplete(names: seq<string>, used: set<string>, k: nat, x: string)
    requires k < |names| && Contributes(names[k], used, x)
    ensures x in Candidates(names, used)
  {
    var init := names[..|names| - 1];
    var last := names[|names| - 1];
    assert Candidates(names, used) == Candidates(init, used) + Contribution(last, used);
    if k < |init| {
      assert init[k] == names[k];
      CandidatesComplete(init, used, k, x);
    } else {
      assert x in Contribution(last, used);
    }
  }

  /** A name is a candidate exactly when some base name contributes it. */
  lemma CandidatesSpec(names: seq<string>, used: set<string>, x: string)
    ensures x in Candidates(names, used) <==> exists k :: 0 <= k < |names| && Contributes(names[k], used, x)
  {
    if x in Candidates(names, used) {
      CandidatesSound(names, used, x);
    }
    if exists k :: 0 <= k < |names| && Contributes(names[k], used, x) {
      var k :| 0 <= k < |names| && Contributes(names[k], used, x);
      CandidatesComplete(names, used, k, x);
    }
  }

  /** Every base name that is free is offered as a candidate. */
  lemma FreeBaseNameIsCandidate(names: seq<string>, used: set<string>, k: nat)
    requires k < |names| && names[k] !in used
    ensures names[k] in Candidates(names, used)
  {
    CandidatesComplete(names, used, k, names[k]);
  }

  /** With one base name "Alex" held by a live user, the only candidate is "Alex2". */
  lemma SingleNamePoolOffersSuffix()
    ensures Candidates(["Alex"], {"Alex"}) == ["Alex2"]
  {
    assert Decimal(2) == "2";
    assert Variant("Alex", 2) == "Alex2";
    assert ["Alex"][..0] == [];
  }

  /** The candidates of a names file, or none when it could not be read; none of them is in use. */
  function CandidatesFor(namesFile: Option<seq<string>>, used: set<string>): (available: seq<string>)
    ensures namesFile.None? ==> available == []
    ensures forall x :: x in available ==> x !in used
  {
    match namesFile
    case None => []
    case Some(lines) => Candidates(LoadNames(lines), used)
  }

  /** The two nested loops of the picker, building `available_names`. */
  method BuildCandidates(names: seq<string>, used: set<string>) returns (available: seq<string>)
    ensures available == Candidates(names, used)
  {
    available := [];
    var n := 0;
    while n < |names|
      invariant 0 <= n <= |names|
      invariant available == Candidates(names[..n], used)
    {
      var name := names[n];
      assert names[..n + 1][..n] == names[..n];
      if name !in used {
        available := available + [name];
      } else {
        var i := FirstSuffix;
        while i < SuffixLimit
          invariant FirstSuffix <= i <= SuffixLimit
          invariant available == Candidates(names[..n], used)
          invariant FirstFreeSuffix(name, used, FirstSuffix) == FirstFreeSuffix(name, used, i)
        {
          var newName := name + Decimal(i);
          if newName !in used {
            available := available + [newName];
            break;
          }
          i := i + 1;
        }
      }
      n := n + 1;
    }
    assert names[..n] == names;
  }

  /**
   * `get_random_name()`: `namesFile` is the names file's lines, or None when opening or reading it
   * raised. With a non-empty candidate list the result is one of its entries, and so not held by
   * any user; otherwise it is a guest name.
   */
  method GetRandomName(namesFile: Option<seq<string>>, used: set<string>) returns (name: string)
    ensures CandidatesFor(namesFile, used) != [] ==> name in CandidatesFor(namesFile, used) && name !in used
    ensures CandidatesFor(namesFile, used) == [] ==> IsGuestName(name)
  {
    if namesFile.Some? {
      var names := LoadNames(namesFile.value);
      var available := BuildCandidates(names, used);
      if available != [] {
        var k :| 0 <= k < |available|;
        name := available[k];
        return;
      }
    }
    var n :| GuestMin <= n <= GuestMax;
    name := GuestName(n);
  }
}
