/**
 * `get_non_overwriting_path`: keep a file name that is free, otherwise try
 * `stem_1.suffix`, `stem_2.suffix`, ... and return the first free one. The
 * directory is the finite set of names it already holds, so the search ends.
 */
module OutputNaming {
  import opened Base

  // ---------------------------------------------------------------------------
  // Decimal numerals, as `f"{counter}"` writes them

  function DigitChar(d: nat): (c: char)
    requires d < 10
    ensures '0' <= c <= '9' && c as int - '0' as int == d
  {
    ['0', '1', '2', '3', '4', '5', '6', '7', '8', '9'][d]
  }

  predicate IsDigit(c: char) {
    '0' <= c <= '9'
  }

  /** The decimal numeral of `n`: digits only, no leading zero. */
  function NatToString(n: nat): (s: string)
    ensures |s| >= 1
    ensures forall i :: 0 <= i < |s| ==> IsDigit(s[i])
    ensures |s| > 1 ==> s[0] != '0'
  {
    if n < 10 then [DigitChar(n)] else NatToString(n / 10) + [DigitChar(n % 10)]
  }

  /** The value of a string of decimal digits, read left to right. */
  function ParseNat(s: string): (n: nat)
    requires forall i :: 0 <= i < |s| ==> IsDigit(s[i])
  {
    if s == [] then 0
    else
      assert IsDigit(s[|s| - 1]);
      10 * ParseNat(s[..|s| - 1]) + (s[|s| - 1] as int - '0' as int)
  }

  /** Reading the numeral back gives the number. */
  lemma {:induction false} ParseNatToString(n: nat)
    ensures ParseNat(NatToString(n)) == n
  {
    if n >= 10 {
      var s := NatToString(n);
      assert s[..|s| - 1] == NatToString(n / 10);
      ParseNatToString(n / 10);
    }
  }

  /** Different numbers have different numerals. */
  lemma NatToStringInjective(j: nat, k: nat)
    requires NatToString(j) == NatToString(k)
    ensures j == k
  {
    ParseNatToString(j);
    ParseNatToString(k);
  }

  // ---------------------------------------------------------------------------
  // `Path.stem` and `Path.suffix`

  /** `name.rfind('.')`: the last position of a dot, or -1. */
  function LastDot(name: string): (i: int)
    ensures -1 <= i < |name|
    ensures i >= 0 ==> name[i] == '.'
    ensures forall j :: i < j < |name| ==> name[j] != '.'
  {
    if name == [] then -1
    else if name[|name| - 1] == '.' then |name| - 1
    else LastDot(name[..|name| - 1])
  }

  /** A suffix exists when the last dot is neither the first nor the last character. */
  predicate HasSuffix(name: string) {
    0 < LastDot(name) < |name| - 1
  }

  function Suffix(name: string): (s: string)
    ensures s == [] || (|s| >= 2 && s[0] == '.' && forall j :: 0 < j < |s| ==> s[j] != '.')
  {
    if HasSuffix(name) then name[LastDot(name)..] else []
  }

  function Stem(name: string): (s: string)
    ensures s != [] || name == []
  {
    if HasSuffix(name) then name[..LastDot(name)] else name
  }

  /** The name splits into its stem followed by its suffix. */
  lemma StemSuffix(name: string)
    ensures Stem(name) + Suffix(name) == name
    ensures Suffix(name) == [] <==> !HasSuffix(name)
  {
    if HasSuffix(name) {
      assert name[..LastDot(name)] + name[LastDot(name)..] == name;
    }
  }

  /** `f"{stem}_{counter}{suffix}"` */
  function Numbered(name: string, k: nat): (r: string)
    ensures |r| == |name| + 1 + |NatToString(k)|
    ensures r != name
  {
    StemSuffix(name);
    Stem(name) + "_" + NatToString(k) + Suffix(name)
  }

  /** Different counters give different names. */
  lemma NumberedInjective(name: string, j: nat, k: nat)
    requires Numbered(name, j) == Numbered(name, k)
    ensures j == k
  {
    var a, b := Stem(name) + "_", Suffix(name);
    var x, y := Numbered(name, j), Numbered(name, k);
    assert |NatToString(j)| == |NatToString(k)|;
    assert NatToString(j) == x[|a|..|a| + |NatToString(j)|];
    assert NatToString(k) == y[|a|..|a| + |NatToString(k)|];
    NatToStringInjective(j, k);
  }

  /**
   * `get_non_overwriting_path`: `existing` holds the names already present in
   * the target directory, `name` is the wanted file name.
   */
  method NonOverwritingPath(existing: set<string>, name: string) returns (path: string)
    ensures path !in existing
    ensures name !in existing ==> path == name
    ensures name in existing ==>
              exists k: nat :: && k >= 1 && path == Numbered(name, k)
                               && forall j: nat :: 1 <= j < k ==> Numbered(name, j) in existing
  {
    if name !in existing {
      return name;
    }
    var counter: nat := 1;
    ghost var tried: set<string> := {};
    while true
      invariant counter >= 1
      invariant tried <= existing
      invariant |tried| == counter - 1
      invariant forall j: nat :: 1 <= j < counter ==> Numbered(name, j) in existing
      invariant forall j: nat :: j >= counter ==> Numbered(name, j) !in tried
      decreases |existing| - |tried|
    {
      var candidate := Numbered(name, counter);
      if candidate !in existing {
        return candidate;
      }
      forall j: nat | j > counter
        ensures Numbered(name, j) != candidate
      {
        if Numbered(name, j) == candidate {
          NumberedInjective(name, j, counter);
        }
      }
      tried := tried + {candidate};
      SubsetCardinality(tried, existing);
      counter := counter + 1;
    }
  }
}
