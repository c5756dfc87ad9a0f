/**
 * The command-line option table of the project builder (`Util.executeArguments`),
 * filled once per editor domain load from the process arguments.
 *
 * `OptionTable` says declaratively what the table holds; `ParseCommandLine`
 * is the two-state scan that builds it, and is proved to build exactly that.
 */
module ExecuteArguments {
  import opened NetString

  /** A token is an option name when its first `'-'` is at index 0. */
  function IsOption(arg: string): (r: bool)
    ensures r <==> |arg| > 0 && arg[0] == '-'
  {
    IndexOf(arg, '-') == 0
  }

  /** The index of the last occurrence of `x` in `s`, or -1 when there is none. */
  function LastIndexOf(s: seq<string>, x: string): (r: int)
    ensures -1 <= r < |s|
    ensures r == -1 <==> x !in s
    ensures 0 <= r ==> s[r] == x && x !in s[r + 1..]
  {
    if |s| == 0 then -1
    else if s[|s| - 1] == x then |s| - 1
    else
      assert s[..|s| - 1] + [s[|s| - 1]] == s;
      LastIndexOf(s[..|s| - 1], x)
  }

  /** Every token of `args` that names an option. */
  function OptionKeys(args: seq<string>): set<string>
  {
    set j | 0 <= j < |args| && IsOption(args[j]) :: args[j]
  }

  /** What the option at index `i` receives: the next token when that is not an option, `""` otherwise. */
  function ValueAt(args: seq<string>, i: int): string
    requires 0 <= i < |args|
  {
    if i + 1 < |args| && !IsOption(args[i + 1]) then args[i + 1] else ""
  }

  /** The option table: each option that occurs maps to the value of its last occurrence. */
  function OptionTable(args: seq<string>): map<string, string>
  {
    map k | k in OptionKeys(args) :: ValueAt(args, LastIndexOf(args, k))
  }

  /** The key still waiting for a value after scanning `s`, `""` when none is. */
  function PendingKey(s: seq<string>): string
  {
    if |s| > 0 && IsOption(s[|s| - 1]) then s[|s| - 1] else ""
  }

  /** Appending one token: it is the last occurrence of itself, and changes no other. */
  lemma LastIndexOfSnoc(s: seq<string>, x: string, k: string)
    ensures LastIndexOf(s + [x], k) == if x == k then |s| else LastIndexOf(s, k)
  {
    assert (s + [x])[..|s|] == s;
  }

  lemma OptionKeysSnoc(s: seq<string>, x: string)
    ensures OptionKeys(s + [x]) == OptionKeys(s) + (if IsOption(x) then {x} else {})
  {
    var t := s + [x];
    forall k | k in OptionKeys(t) ensures k in OptionKeys(s) + (if IsOption(x) then {x} else {}) {
      var j :| 0 <= j < |t| && IsOption(t[j]) && t[j] == k;
      if j < |s| { assert s[j] == k; }
    }
    forall k | k in OptionKeys(s) ensures k in OptionKeys(t) {
      var j :| 0 <= j < |s| && IsOption(s[j]) && s[j] == k;
      assert t[j] == k;
    }
    if IsOption(x) { assert t[|s|] == x; }
  }

  /** The scan's state after reading the prefix `p`: the table so far and the pending key. */
  ghost predicate Scanned(p: seq<string>, table: map<string, string>, argKey: string)
  {
    && table.Keys == OptionKeys(p)
    && argKey == PendingKey(p)
    && forall k :: k in table ==> table[k] == ValueAt(p, LastIndexOf(p, k))
  }

  /** Appending an option token does not change what earlier options receive. */
  lemma ValueAtSnocOption(p: seq<string>, arg: string, j: int)
    requires IsOption(arg) && 0 <= j < |p|
    ensures ValueAt(p + [arg], j) == ValueAt(p, j)
  {
    if j + 1 < |p| { assert (p + [arg])[j + 1] == p[j + 1]; }
  }

  /** Reading an option token: it is stored with `""` and becomes the pending key. */
  lemma ScanOption(p: seq<string>, table: map<string, string>, argKey: string, arg: string)
    requires Scanned(p, table, argKey) && IsOption(arg)
    ensures Scanned(p + [arg], table[arg := ""], arg)
  {
    var q, t := p + [arg], table[arg := ""];
    OptionKeysSnoc(p, arg);
    assert t.Keys == OptionKeys(q);
    LastIndexOfSnoc(p, arg, arg);
    forall k | k in t && k != arg ensures t[k] == ValueAt(q, LastIndexOf(q, k)) {
      LastIndexOfSnoc(p, arg, k);
      ValueAtSnocOption(p, arg, LastIndexOf(p, k));
    }
  }

  /** Appending a token does not change what an option followed by another token receives. */
  lemma ValueAtSnocEarly(p: seq<string>, arg: string, j: int)
    requires 0 <= j && j + 1 < |p|
    ensures ValueAt(p + [arg], j) == ValueAt(p, j)
  {
    assert (p + [arg])[j + 1] == p[j + 1];
  }

  /** Reading a value while a key is pending: the key gets the value and nothing is pending. */
  lemma ScanValue(p: seq<string>, table: map<string, string>, argKey: string, arg: string)
    requires Scanned(p, table, argKey) && !IsOption(arg) && 0 < |argKey|
    ensures Scanned(p + [arg], table[argKey := arg], "")
  {
    var q, t := p + [arg], table[argKey := arg];
    OptionKeysSnoc(p, arg);
    assert p[|p| - 1] == argKey;
    assert argKey in OptionKeys(p);
    assert t.Keys == OptionKeys(q);
    LastIndexOfSnoc(p, arg, argKey);
    assert (p + [arg])[|p|] == arg;
    forall k | k in t && k != argKey ensures t[k] == ValueAt(q, LastIndexOf(q, k)) {
      LastIndexOfSnoc(p, arg, k);
      ValueAtSnocEarly(p, arg, LastIndexOf(p, k));
    }
  }

  /** Reading a value while no key is pending changes nothing. */
  lemma ScanStray(p: seq<string>, table: map<string, string>, argKey: string, arg: string)
    requires Scanned(p, table, argKey) && !IsOption(arg) && |argKey| == 0
    ensures Scanned(p + [arg], table, "")
  {
    var q := p + [arg];
    OptionKeysSnoc(p, arg);
    forall k | k in table ensures table[k] == ValueAt(q, LastIndexOf(q, k)) {
      LastIndexOfSnoc(p, arg, k);
      var j := LastIndexOf(p, k);
      assert p[j] == k && IsOption(k);
      assert j != |p| - 1;
      assert q[j + 1] == p[j + 1];
    }
  }

  /**
   * `Util.InitializeOnLoadMethod`'s scan: an option token becomes the pending
   * key and is stored with value `""`; a following non-option token becomes
   * its value and clears the pending key; any other token is skipped.
   */
  method ParseCommandLine(args: seq<string>) returns (executeArguments: map<string, string>)
    ensures executeArguments == OptionTable(args)
    ensures forall k :: k in executeArguments <==> k in args && |k| > 0 && k[0] == '-'
  {
    executeArguments := map[];
    var argKey := "";
    for i := 0 to |args|
      invariant Scanned(args[..i], executeArguments, argKey)
    {
      var arg := args[i];
      assert args[..i + 1] == args[..i] + [arg];
      if IndexOf(arg, '-') == 0 {
        ScanOption(args[..i], executeArguments, argKey, arg);
        argKey := arg;
        executeArguments := executeArguments[argKey := ""];
      } else if 0 < |argKey| {
        ScanValue(args[..i], executeArguments, argKey, arg);
        executeArguments := executeArguments[argKey := arg];
        argKey := "";
      } else {
        ScanStray(args[..i], executeArguments, argKey, arg);
      }
    }
    assert args[..|args|] == args;
    forall k | k in args && |k| > 0 && k[0] == '-' ensures k in OptionKeys(args) {
      var j :| 0 <= j < |args| && args[j] == k;
    }
  }

  /** An element of `b` has its last occurrence in `a + b` inside `b`, shifted by `|a|`. */
  lemma {:induction false} LastIndexOfAppend(a: seq<string>, b: seq<string>, k: string)
    requires k in b
    ensures LastIndexOf(a + b, k) == |a| + LastIndexOf(b, k)
    decreases |b|
  {
    var n := |b| - 1;
    assert a + b == (a + b[..n]) + [b[n]];
    assert b == b[..n] + [b[n]];
    LastIndexOfSnoc(a + b[..n], b[n], k);
    LastIndexOfSnoc(b[..n], b[n], k);
    if b[n] != k {
      LastIndexOfAppend(a, b[..n], k);
    }
  }

  /**
   * When an option occurs again later, the later occurrence decides its
   * value: whatever `a` said about an option of `b` is overwritten.
   */
  lemma LaterOccurrenceWins(a: seq<string>, b: seq<string>, k: string)
    requires k in OptionTable(b)
    ensures k in OptionTable(a + b) && OptionTable(a + b)[k] == OptionTable(b)[k]
  {
    var j :| 0 <= j < |b| && IsOption(b[j]) && b[j] == k;
    assert (a + b)[|a| + j] == k;
    assert k in OptionKeys(a + b);
    LastIndexOfAppend(a, b, k);
  }

  /** An option that is last, or directly followed by another option, maps to `""`. */
  lemma OptionWithoutValue(a: seq<string>, k: string, b: seq<string>)
    requires IsOption(k) && k !in b
    requires b == [] || IsOption(b[0])
    ensures k in OptionTable(a + [k] + b) && OptionTable(a + [k] + b)[k] == ""
  {
    var s := a + [k] + b;
    assert s[|a|] == k;
    assert k in OptionKeys(s);
    LastIndexOfPrefix(a + [k], b, k);
    LastIndexOfSnoc(a, k, k);
    assert |a| + 1 < |s| ==> s[|a| + 1] == b[0];
  }

  /** A non-option token directly after an option becomes that option's value. */
  lemma OptionWithValue(a: seq<string>, k: string, v: string, b: seq<string>)
    requires IsOption(k) && !IsOption(v) && k !in b
    ensures k in OptionTable(a + [k, v] + b) && OptionTable(a + [k, v] + b)[k] == v
  {
    var s := a + [k, v] + b;
    assert s[|a|] == k && s[|a| + 1] == v;
    assert k in OptionKeys(s);
    assert a + [k, v] == (a + [k]) + [v];
    LastIndexOfPrefix(a + [k, v], b, k);
    LastIndexOfSnoc(a + [k], v, k);
    LastIndexOfSnoc(a, k, k);
  }

  /** Appending tokens that are not `k` leaves the last occurrence of `k` where it was. */
  lemma {:induction false} LastIndexOfPrefix(a: seq<string>, b: seq<string>, k: string)
    requires k !in b
    ensures LastIndexOf(a + b, k) == LastIndexOf(a, k)
    decreases |b|
  {
    if |b| > 0 {
      var n := |b| - 1;
      assert a + b == (a + b[..n]) + [b[n]];
      assert b[n] in b;
      LastIndexOfSnoc(a + b[..n], b[n], k);
      LastIndexOfPrefix(a, b[..n], k);
    } else {
      assert a + b == a;
    }
  }

  /** Two lists of one length that hold `k` at the same positions have the same last `k`. */
  lemma {:induction false} LastIndexOfAgree(s1: seq<string>, s2: seq<string>, k: string)
    requires |s1| == |s2|
    requires forall j :: 0 <= j < |s1| ==> (s1[j] == k <==> s2[j] == k)
    ensures LastIndexOf(s1, k) == LastIndexOf(s2, k)
    decreases |s1|
  {
    if |s1| > 0 {
      var n := |s1| - 1;
      assert s1 == s1[..n] + [s1[n]] && s2 == s2[..n] + [s2[n]];
      LastIndexOfSnoc(s1[..n], s1[n], k);
      LastIndexOfSnoc(s2[..n], s2[n], k);
      LastIndexOfAgree(s1[..n], s2[..n], k);
    }
  }

  /** Two argument lists that differ only in non-option tokens have the same option keys. */
  lemma OptionKeysAgree(s1: seq<string>, s2: seq<string>)
    requires |s1| == |s2|
    requires forall j :: 0 <= j < |s1| && (IsOption(s1[j]) || IsOption(s2[j])) ==> s1[j] == s2[j]
    ensures OptionKeys(s1) == OptionKeys(s2)
  {
    forall k | k in OptionKeys(s1) ensures k in OptionKeys(s2) {
      var j :| 0 <= j < |s1| && IsOption(s1[j]) && s1[j] == k;
      assert s2[j] == k;
    }
    forall k | k in OptionKeys(s2) ensures k in OptionKeys(s1) {
      var j :| 0 <= j < |s2| && IsOption(s2[j]) && s2[j] == k;
      assert s1[j] == k;
    }
  }

  /**
   * Two argument lists of one length that agree on where the options are and
   * on what every option position receives give the same table.
   */
  lemma TableAgree(s1: seq<string>, s2: seq<string>)
    requires |s1| == |s2|
    requires forall j :: 0 <= j < |s1| && (IsOption(s1[j]) || IsOption(s2[j])) ==> s1[j] == s2[j]
    requires forall j :: 0 <= j < |s1| && IsOption(s1[j]) ==> ValueAt(s1, j) == ValueAt(s2, j)
    ensures OptionTable(s1) == OptionTable(s2)
  {
    OptionKeysAgree(s1, s2);
    forall k | k in OptionKeys(s1)
      ensures ValueAt(s1, LastIndexOf(s1, k)) == ValueAt(s2, LastIndexOf(s2, k))
    {
      LastIndexOfAgree(s1, s2, k);
    }
  }

  /**
   * A non-option token that does not directly follow an option is ignored:
   * replacing it by any other non-option token leaves the table unchanged.
   * This covers tokens before the first option and a second consecutive
   * non-option token.
   */
  lemma StrayTokenIgnored(a: seq<string>, t: string, u: string, b: seq<string>)
    requires !IsOption(t) && !IsOption(u)
    requires a == [] || !IsOption(a[|a| - 1])
    ensures OptionTable(a + [t] + b) == OptionTable(a + [u] + b)
  {
    var s1, s2 := a + [t] + b, a + [u] + b;
    assert s1[|a|] == t && s2[|a|] == u;
    forall j | 0 <= j < |s1| && j != |a| ensures s1[j] == s2[j] {
      if j < |a| { assert s1[j] == a[j] == s2[j]; }
      else { assert s1[j] == b[j - |a| - 1] == s2[j]; }
    }
    forall j | 0 <= j < |s1| && IsOption(s1[j]) ensures ValueAt(s1, j) == ValueAt(s2, j) {
      assert j != |a| && j + 1 != |a|;
    }
    TableAgree(s1, s2);
  }
}
