/** `launchArgs` of `src/launch-args.ts`: makes sure the browser is launched with the Blink
    feature `ComputedAccessibilityInfo`, which the role and name queries depend on. */
module LaunchArgs {
  import opened Strings
  import Seqs

  const Prefix: string := "--enable-blink-features="
  const Feature: string := "ComputedAccessibilityInfo"
  /** The argument added when none of the arguments enables Blink features. */
  const Flag: string := Prefix + Feature

  predicate EnablesFeatures(arg: string) {
    StartsWith(arg, Prefix)
  }

  /** The position of the first argument that enables Blink features, or -1. */
  function FlagIndex(args: seq<string>): (r: int)
    ensures -1 <= r < |args|
    ensures r >= 0 ==> EnablesFeatures(args[r])
    ensures forall j :: 0 <= j < |args| && (r < 0 || j < r) ==> !EnablesFeatures(args[j])
  {
    Seqs.FindIndex(args, EnablesFeatures)
  }

  /** The arguments `launchArgs` returns, as a value. */
  function LaunchArgsOf(args: seq<string>): seq<string> {
    var i := FlagIndex(args);
    if i == -1 then args + [Flag]
    else if Contains(args[i], Feature) then args
    else args[i := args[i] + "," + Feature]
  }

  /** `launchArgs()`: the default is the empty list, which yields just the flag. */
  lemma DefaultArgs()
    ensures LaunchArgsOf([]) == [Flag]
  {
  }

  /** No argument enables Blink features: the flag is appended at the end. */
  lemma AppendsFlag(args: seq<string>)
    requires forall j :: 0 <= j < |args| ==> !EnablesFeatures(args[j])
    ensures LaunchArgsOf(args) == args + [Flag]
  {
  }

  /** The first argument that enables Blink features already names the feature: the input is
      returned as it is. */
  lemma KeepsEnabled(args: seq<string>, i: nat)
    requires i < |args| && EnablesFeatures(args[i]) && Contains(args[i], Feature)
    requires forall j :: 0 <= j < i ==> !EnablesFeatures(args[j])
    ensures LaunchArgsOf(args) == args
  {
    assert FlagIndex(args) == i;
  }

  /** Otherwise only that first argument changes, by `,ComputedAccessibilityInfo` at its end;
      the length and every other argument stay as they are. */
  lemma ExtendsFirstFlag(args: seq<string>, i: nat)
    requires i < |args| && EnablesFeatures(args[i]) && !Contains(args[i], Feature)
    requires forall j :: 0 <= j < i ==> !EnablesFeatures(args[j])
    ensures |LaunchArgsOf(args)| == |args|
    ensures LaunchArgsOf(args)[i] == args[i] + "," + Feature
    ensures forall j :: 0 <= j < |args| && j != i ==> LaunchArgsOf(args)[j] == args[j]
  {
    assert FlagIndex(args) == i;
    assert LaunchArgsOf(args) == args[i := args[i] + "," + Feature];
  }

  /** The result always holds an argument that enables Blink features and names the
      feature, and it is the first one that enables Blink features. */
  lemma {:induction false} FeatureEnabled(args: seq<string>)
    ensures var r := LaunchArgsOf(args);
      var i := FlagIndex(r);
      i >= 0 && Contains(r[i], Feature)
  {
    var i := FlagIndex(args);
    var r := LaunchArgsOf(args);
    if i == -1 {
      assert FlagIndex(r) == |args| by {
        assert r[|args|] == Flag;
        assert EnablesFeatures(Flag);
      }
      ContainsSuffix(Prefix, Feature);
    } else if !Contains(args[i], Feature) {
      assert r[i] == (args[i] + ",") + Feature;
      StartsWithAppend(args[i], "," + Feature, Prefix);
      assert FlagIndex(r) == i;
      ContainsSuffix(args[i] + ",", Feature);
    }
  }

  /** Applying `launchArgs` to its own result changes nothing. */
  lemma Idempotent(args: seq<string>)
    ensures LaunchArgsOf(LaunchArgsOf(args)) == LaunchArgsOf(args)
  {
    FeatureEnabled(args);
  }

  /** `launchArgs(args)`: the input array is never written; the result is a new array unless
      the input already enables the feature, in which case it is the input itself. */
  method LaunchArgs(args: array<string>) returns (r: array<string>)
    ensures r[..] == LaunchArgsOf(args[..])
    ensures var i := FlagIndex(args[..]);
      (r == args) <==> (i >= 0 && Contains(args[i], Feature))
    ensures r != args ==> fresh(r)
  {
    var i := FlagIndex(args[..]);
    if i == -1 {
      // [...args, flag]
      r := new string[args.Length + 1](_ => Flag);
      for k := 0 to args.Length
        invariant r[..k] == args[..k]
        invariant r[args.Length] == Flag
      {
        r[k] := args[k];
      }
      assert r[..] == r[..args.Length] + [r[args.Length]];
      return;
    }
    if Contains(args[i], Feature) {
      return args;
    }
    // args.slice(), then the one element is extended in place
    r := new string[args.Length](_ => "");
    for k := 0 to args.Length
      invariant r[..k] == args[..k]
    {
      r[k] := args[k];
    }
    assert r[..] == args[..];
    r[i] := r[i] + "," + Feature;
  }
}
