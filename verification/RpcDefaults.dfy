/** Default values in the argument list of a JSON-RPC call. The defaults belong to the last
    arguments; the arguments before those are required. */
module RpcDefaults {
  import opened Types

  datatype Value =
    | Null
    | Bool(b: bool)
    | Number(n: int)
    | Str(s: string)
    | Array(items: seq<Value>)
    | Object(fields: seq<(string, Value)>)

  /** How many arguments have no default. */
  function Required(args: seq<Value>, defaults: seq<Value>): nat
    requires |args| >= |defaults|
  {
    |args| - |defaults|
  }

  /** The default of argument `i`. */
  function DefaultOf(args: seq<Value>, defaults: seq<Value>, i: nat): Value
    requires |args| >= |defaults| && Required(args, defaults) <= i < |args|
  {
    defaults[i - Required(args, defaults)]
  }

  /** What the call means: every optional argument that is null stands for its default. */
  function Overlay(args: seq<Value>, defaults: seq<Value>): (meaning: seq<Value>)
    requires |args| >= |defaults|
    ensures |meaning| == |args|
    ensures var required := |args| - |defaults|;
            forall i :: 0 <= i < |args| ==>
              meaning[i] == if i >= required && args[i] == Null then defaults[i - required] else args[i]
  {
    seq(|args|, i requires 0 <= i < |args| =>
      if i >= Required(args, defaults) && args[i] == Null then DefaultOf(args, defaults, i) else args[i])
  }

  /** How many arguments there are up to the last optional one that is given. */
  function GivenUpTo(args: seq<Value>, required: nat): (n: nat)
    requires required <= |args|
    ensures required <= n <= |args|
    ensures n > required ==> args[n - 1] != Null
    ensures forall i :: n <= i < |args| ==> args[i] == Null
  {
    if |args| == required then required
    else if args[|args| - 1] != Null then |args|
    else GivenUpTo(args[..|args| - 1], required)
  }

  /** Argument `k` was left out before one that is given, and has no default to stand for it. */
  predicate MissingAt(args: seq<Value>, defaults: seq<Value>, k: nat)
    requires |args| >= |defaults|
  {
    && Required(args, defaults) <= k < GivenUpTo(args, Required(args, defaults))
    && args[k] == Null && DefaultOf(args, defaults, k) == Null
  }

  /** The list with the defaults filled in from argument `lo` to the last one given. */
  function FilledFrom(args: seq<Value>, defaults: seq<Value>, lo: nat): (filled: seq<Value>)
    requires |args| >= |defaults| && Required(args, defaults) <= lo
    ensures |filled| == |args|
    ensures forall i :: 0 <= i < |args| ==>
              filled[i]
              == if lo <= i < GivenUpTo(args, Required(args, defaults)) then Overlay(args, defaults)[i] else args[i]
  {
    var n, meaning := GivenUpTo(args, Required(args, defaults)), Overlay(args, defaults);
    seq(|args|, i requires 0 <= i < |args| => if lo <= i < n then meaning[i] else args[i])
  }

  /** A missing default is a null optional argument whose default is null too, somewhere before
      an argument that is given. */
  lemma MissingMeaning(args: seq<Value>, defaults: seq<Value>, k: nat)
    requires |args| >= |defaults|
    ensures MissingAt(args, defaults, k) <==>
              && |args| - |defaults| <= k < |args|
              && args[k] == Null && defaults[k - (|args| - |defaults|)] == Null
              && exists j :: k < j < |args| && args[j] != Null
  {
    var n := GivenUpTo(args, Required(args, defaults));
    if MissingAt(args, defaults, k) {
      assert args[n - 1] != Null;
    }
  }

  /** The filled list, argument by argument. */
  lemma FilledMeaning(args: seq<Value>, defaults: seq<Value>, filled: seq<Value>, n: nat, required: nat)
    requires |args| >= |defaults| && required == |args| - |defaults|
    requires filled == FilledFrom(args, defaults, required) && n == GivenUpTo(args, required)
    ensures |filled| == |args| && required <= n <= |args|
    ensures forall i :: required <= i < n ==>
              filled[i] == if args[i] == Null then defaults[i - required] else args[i]
    ensures forall i :: 0 <= i < required || n <= i < |args| ==> filled[i] == args[i]
  {
  }

  /** `Slice` is the part of the array that is sent; the other two are panics. */
  datatype Outcome = Slice(len: nat) | TooManyDefaults | MissingDefault(idx: nat)

  /** The loop over the optional arguments, from the back. */
  method FillDefaults(args: array<Value>, defaults: seq<Value>) returns (r: Outcome)
    modifies args
    ensures r.TooManyDefaults? <==> args.Length < |defaults|
    ensures r.TooManyDefaults? ==> args[..] == old(args[..])
    ensures !r.TooManyDefaults? ==>
              (r.MissingDefault? <==> exists k: nat :: MissingAt(old(args[..]), defaults, k))
    ensures r.MissingDefault? ==>
              && MissingAt(old(args[..]), defaults, r.idx)
              && (forall k: nat :: MissingAt(old(args[..]), defaults, k) ==> k <= r.idx)
              && args[..] == FilledFrom(old(args[..]), defaults, r.idx + 1)
    ensures r.Slice? ==>
              && r.len == GivenUpTo(old(args[..]), Required(old(args[..]), defaults))
              && args[..] == FilledFrom(old(args[..]), defaults, Required(old(args[..]), defaults))
  {
    if args.Length < |defaults| {
      return TooManyDefaults;
    }
    ghost var before := args[..];
    ghost var given := GivenUpTo(before, Required(before, defaults));
    var firstNonNull: Option<nat> := None;
    for i := 0 to |defaults|
      invariant firstNonNull.None? ==> given <= args.Length - i
      invariant firstNonNull.Some? ==> firstNonNull.value == given - 1 && args.Length - i < given
      invariant args[..] == FilledFrom(before, defaults, args.Length - i)
      invariant forall k: nat :: args.Length - i <= k ==> !MissingAt(before, defaults, k)
    {
      var a: nat := args.Length - 1 - i;
      var d: nat := |defaults| - 1 - i;
      assert DefaultOf(before, defaults, a) == defaults[d];
      assert args[a] == before[a];
      if args[a] == Null {
        if firstNonNull.Some? {
          if defaults[d] == Null {
            assert MissingAt(before, defaults, a);
            return MissingDefault(a);
          }
          args[a] := defaults[d];
        }
      } else if firstNonNull.None? {
        firstNonNull := Some(a);
      }
    }
    var requiredNum := args.Length - |defaults|;
    r := Slice(match firstNonNull case Some(i) => i + 1 case None => requiredNum);
  }

  /** Fills in defaults in place, from the back, and says how much of the array to send. */
  method HandleDefaults(args: array<Value>, defaults: seq<Value>) returns (r: Outcome)
    modifies args
    ensures r.TooManyDefaults? <==> args.Length < |defaults|
    ensures r.TooManyDefaults? ==> args[..] == old(args[..])
    ensures !r.TooManyDefaults? ==>
              (r.MissingDefault? <==> exists k: nat :: MissingAt(old(args[..]), defaults, k))
    ensures r.MissingDefault? ==>
              && MissingAt(old(args[..]), defaults, r.idx)
              && (forall k: nat :: MissingAt(old(args[..]), defaults, k) ==> k <= r.idx)
              && args[..] == FilledFrom(old(args[..]), defaults, r.idx + 1)
    ensures r.MissingDefault? ==>
              var required := args.Length - |defaults|;
              && required <= r.idx < args.Length
              && old(args[r.idx]) == Null && defaults[r.idx - required] == Null
              && exists j :: r.idx < j < args.Length && old(args[j]) != Null
    ensures r.Slice? ==>
              var required := args.Length - |defaults|;
              && required <= r.len <= args.Length
              && (forall i :: required <= i < r.len ==>
                    args[i] == if old(args[i]) == Null then defaults[i - required] else old(args[i]))
              && (forall i :: 0 <= i < required || r.len <= i < args.Length ==> args[i] == old(args[i]))
    ensures r.Slice? ==>
              && r.len == GivenUpTo(old(args[..]), Required(old(args[..]), defaults))
              && args[..] == FilledFrom(old(args[..]), defaults, Required(old(args[..]), defaults))
  {
    ghost var before := args[..];
    r := FillDefaults(args, defaults);
    match r
    case TooManyDefaults =>
    case MissingDefault(idx) => MissingMeaning(before, defaults, idx);
    case Slice(len) =>
      ghost var required: nat := args.Length - |defaults|;
      FilledMeaning(before, defaults, args[..], len, required);
  }

  /** Sending less keeps the meaning: padded with the defaults it leaves out, the slice is the
      overlay of the original list. */
  lemma SliceKeepsMeaning(args: seq<Value>, defaults: seq<Value>, n: nat, sent: seq<Value>)
    requires |args| >= |defaults| && n == GivenUpTo(args, Required(args, defaults))
    requires sent == FilledFrom(args, defaults, Required(args, defaults))[..n]
    ensures sent + defaults[n - Required(args, defaults)..] == Overlay(args, defaults)
  {
    var padding, meaning := defaults[n - Required(args, defaults)..], Overlay(args, defaults);
    forall i | 0 <= i < |args| ensures (sent + padding)[i] == meaning[i] {
      if i >= n {
        DefaultsPad(sent, defaults, Required(args, defaults), i);
        assert args[i] == Null;
      }
    }
  }

  /** The slice leaves the required arguments alone, and its optional part has no null. */
  lemma SliceHasNoNull(args: seq<Value>, defaults: seq<Value>, n: nat, sent: seq<Value>)
    requires |args| >= |defaults| && n == GivenUpTo(args, Required(args, defaults))
    requires forall k: nat :: !MissingAt(args, defaults, k)
    requires sent == FilledFrom(args, defaults, Required(args, defaults))[..n]
    ensures sent[..Required(args, defaults)] == args[..Required(args, defaults)]
    ensures Null !in sent[Required(args, defaults)..]
  {
    var required := Required(args, defaults);
    forall i | required <= i < n ensures sent[i] != Null {
      assert !MissingAt(args, defaults, i);
    }
    assert sent[..required] == args[..required];
  }

  /** No shorter list can be sent: if the first `m` arguments, padded with defaults, mean the
      same, then the last argument of the slice is its own default. */
  lemma {:induction false} SliceIsShortest(args: seq<Value>, defaults: seq<Value>, n: nat, m: nat, sent: seq<Value>)
    requires |args| >= |defaults|
    requires n == GivenUpTo(args, Required(args, defaults)) && Required(args, defaults) <= m < n
    requires sent == Overlay(args, defaults)[..m]
    requires sent + defaults[m - Required(args, defaults)..] == Overlay(args, defaults)
    ensures args[n - 1] != Null
    ensures args[n - 1] == defaults[n - 1 - (|args| - |defaults|)]
  {
    var required: nat, last: nat := |args| - |defaults|, n - 1;
    assert Required(args, defaults) == required;
    assert |sent| == m && args[last] != Null;
    PaddedGiven(args, defaults, required, last, sent);
  }

  /** A given argument that a padded list ends in is its own default. */
  lemma PaddedGiven(args: seq<Value>, defaults: seq<Value>, required: nat, i: nat, sent: seq<Value>)
    requires |args| == required + |defaults| && required <= |sent| <= i < |args| && args[i] != Null
    requires sent + defaults[|sent| - required..] == Overlay(args, defaults)
    ensures args[i] == defaults[i - required]
  {
    DefaultsPad(sent, defaults, required, i);
    assert Overlay(args, defaults)[i] == args[i];
  }

  /** A list padded from its length on ends in the defaults. */
  lemma DefaultsPad<T>(sent: seq<T>, defaults: seq<T>, required: nat, i: nat)
    requires required <= |sent| <= i < required + |defaults|
    ensures (sent + defaults[|sent| - required..])[i] == defaults[i - required]
  {
  }
}
