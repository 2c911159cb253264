/** The error taxonomy of `src/query-error.ts` and its stack prettifier. */
module QueryErrors {
  import opened Wrappers
  import opened Strings
  import Seqs

  /** Whether an error is an instance of `QueryError` (and so of its subclasses). */
  datatype ErrorClass = PlainError | QueryErrorClass

  /** An error object: its class, `name`, `message` and `stack` (None for undefined). */
  datatype Error = Error(cls: ErrorClass, name: string, message: string, stack: Option<string>) {
    predicate IsQueryError() {
      cls == QueryErrorClass
    }
  }

  const EmptyErrorName := "QueryEmptyError"
  const MultipleErrorName := "QueryMultipleError"

  /** `new QueryError(name, message)`; `stack` is what `Error.captureStackTrace` recorded. */
  function NewQueryError(name: string, message: string, stack: Option<string>): (e: Error)
    ensures e.IsQueryError() && e.name == name && e.message == message && e.stack == stack
  {
    Error(QueryErrorClass, name, message, stack)
  }

  /** `new QueryEmptyError(message)`. */
  function NewQueryEmptyError(message: string, stack: Option<string>): (e: Error)
    ensures e.IsQueryError() && e.name == EmptyErrorName && e.message == message
  {
    NewQueryError(EmptyErrorName, message, stack)
  }

  /** `new QueryMultipleError(message)`. */
  function NewQueryMultipleError(message: string, stack: Option<string>): (e: Error)
    ensures e.IsQueryError() && e.name == MultipleErrorName && e.message == message
  {
    NewQueryError(MultipleErrorName, message, stack)
  }

  /** The marker of the library's own frames (the regular expression is a plain literal). */
  const InternalMarker := "puppeteer-testing-library/dist/"

  predicate IsInternal(line: string) {
    Contains(line, InternalMarker)
  }

  /** `parentError.stack?.split('\n').slice(1) || []`: the parent's frames without its first line. */
  function ParentLines(parent: Error): (r: seq<string>)
    ensures forall i :: 0 <= i < |r| ==> '\n' !in r[i]
  {
    match parent.stack
    case None => []
    case Some(st) => Split(st, '\n')[1..]
  }

  /** `error.stack?.split('\n') || []`. */
  function OwnLines(error: Error): (r: seq<string>)
    ensures forall i :: 0 <= i < |r| ==> '\n' !in r[i]
  {
    match error.stack
    case None => []
    case Some(st) => Split(st, '\n')
  }

  /** `Array.from(new Set([...stacks, ...parentStacks])).join('\n')`. */
  function MergedStack(own: seq<string>, parentLines: seq<string>): string {
    Join(Seqs.Dedup(own + parentLines), "\n")
  }

  /** `stack.indexOf(error.message) + error.message.length + 1`. */
  function TraceStart(stack: string, message: string): (r: nat)
    ensures Contains(stack, message) ==>
      r >= |message| + 1 && OccursAt(stack, message, r - |message| - 1)
      && forall j :: 0 <= j < r - |message| - 1 ==> !OccursAt(stack, message, j)
    ensures !Contains(stack, message) ==> r == |message|
  {
    IndexOf(stack, message) + |message| + 1
  }

  /** The reverse / findIndex / slice / reverse step: the lines after the last internal one. */
  function KeepAfterLastInternal(lines: seq<string>): seq<string> {
    var reversed := Seqs.Reverse(lines);
    var firstInternal := Seqs.FindIndex(reversed, IsInternal);
    var kept := if firstInternal > -1 then reversed[..firstInternal] else reversed;
    Seqs.Reverse(kept)
  }

  /** What follows the message in the merged stack: `stack.slice(messageLastIndex)`. */
  function Rest(parentLines: seq<string>, error: Error): string {
    var stack := MergedStack(OwnLines(error), parentLines);
    SliceFrom(stack, TraceStart(stack, error.message))
  }

  /** The trace kept from that remainder. */
  function Trace(rest: string): string {
    Join(KeepAfterLastInternal(Split(rest, '\n')), "\n")
  }

  /** The new `stack`: `[error.message, trace].join('\n')`. */
  function PrettyStack(parentLines: seq<string>, error: Error): string {
    Join([error.message, Trace(Rest(parentLines, error))], "\n")
  }

  /** The function `stackPrettifier(parentError)` returns, applied to an error or to undefined. */
  function Prettify(parentLines: seq<string>, error: Option<Error>): (r: Option<Error>)
    ensures r.None? <==> error.None?
    ensures error.Some? ==> r.value.cls == error.value.cls && r.value.name == error.value.name
                            && r.value.message == error.value.message
  {
    match error
    case None => None
    case Some(e) => Some(e.(stack := Some(PrettyStack(parentLines, e))))
  }

  /** `stackPrettifier(parentError)`: the parent's lines are read once, when it is called. */
  function StackPrettifier(parent: Error): Option<Error> -> Option<Error> {
    var parentLines := ParentLines(parent);
    (error: Option<Error>) => Prettify(parentLines, error)
  }

  // ----- Properties -----

  /** An undefined error passes through; a defined one keeps class, name and message and
      only its stack is replaced (the same error is returned). */
  lemma PrettifierResult(parent: Error, error: Option<Error>)
    ensures error.None? ==> StackPrettifier(parent)(error) == None
    ensures error.Some? ==>
      StackPrettifier(parent)(error) == Some(error.value.(stack := Some(PrettyStack(ParentLines(parent), error.value))))
  {
  }

  /** The merged stack's lines are the error's lines followed by the parent's, each line once,
      in order of first occurrence. */
  lemma MergedLines(own: seq<string>, parentLines: seq<string>)
    requires |own + parentLines| > 0
    requires forall i :: 0 <= i < |own + parentLines| ==> '\n' !in (own + parentLines)[i]
    ensures Split(MergedStack(own, parentLines), '\n') == Seqs.Dedup(own + parentLines)
    ensures Seqs.Distinct(Split(MergedStack(own, parentLines), '\n'))
    ensures forall i :: 0 <= i < |own + parentLines| ==>
      (own + parentLines)[i] in Split(MergedStack(own, parentLines), '\n')
  {
    var all := own + parentLines;
    var d := Seqs.Dedup(all);
    assert all[0] in d;
    forall i | 0 <= i < |d| ensures '\n' !in d[i] {
      var j :| 0 <= j < |all| && all[j] == d[i];
    }
    SplitJoin(d, '\n');
  }

  /** The number of lines after the last internal one. */
  function KeptCount(lines: seq<string>): (r: nat)
    ensures r <= |lines|
  {
    var k := Seqs.FindIndex(Seqs.Reverse(lines), IsInternal);
    if k > -1 then k else |lines|
  }

  lemma KeepAfterLastInternalSuffix(lines: seq<string>)
    ensures KeepAfterLastInternal(lines) == lines[|lines| - KeptCount(lines)..]
  {
    var reversed := Seqs.Reverse(lines);
    assert reversed[..|lines|] == reversed;
    Seqs.ReversePrefix(lines, KeptCount(lines));
  }

  /** The kept lines are a suffix; none of them is internal; the line just before them is the
      last internal line; with no internal line everything is kept. */
  lemma KeepAfterLastInternalSpec(lines: seq<string>)
    ensures var kept := KeepAfterLastInternal(lines);
      && |kept| <= |lines|
      && kept == lines[|lines| - |kept|..]
      && (forall i :: 0 <= i < |kept| ==> !IsInternal(kept[i]))
      && (|kept| < |lines| ==> IsInternal(lines[|lines| - |kept| - 1]))
      && ((forall i :: 0 <= i < |lines| ==> !IsInternal(lines[i])) ==> kept == lines)
  {
    KeepAfterLastInternalSuffix(lines);
    var reversed := Seqs.Reverse(lines);
    var k := Seqs.FindIndex(reversed, IsInternal);
    var n := |lines|;
    var size := KeptCount(lines);
    var kept := lines[n - size..];
    forall i | 0 <= i < size ensures !IsInternal(kept[i]) {
      assert reversed[size - 1 - i] == kept[i];
    }
    if k > -1 {
      assert reversed[k] == lines[n - 1 - k];
    }
  }

  /** The new stack is the message, a newline and the trace. */
  lemma PrettyStackShape(parentLines: seq<string>, error: Error)
    ensures PrettyStack(parentLines, error) == error.message + "\n" + Trace(Rest(parentLines, error))
  {
    var trace := Trace(Rest(parentLines, error));
    var pieces := [error.message, trace];
    assert pieces[1..] == [trace];
    assert Join([trace], "\n") == trace;
    assert Join(pieces, "\n") == error.message + "\n" + Join([trace], "\n");
  }

  /** No line of the trace contains the internal marker. */
  lemma TraceNoInternal(rest: string)
    ensures forall i :: 0 <= i < |Split(Trace(rest), '\n')| ==> !IsInternal(Split(Trace(rest), '\n')[i])
  {
    var kept := KeepAfterLastInternal(Split(rest, '\n'));
    KeepAfterLastInternalSpec(Split(rest, '\n'));
    if |kept| > 0 {
      SplitJoin(kept, '\n');
    } else {
      assert Trace(rest) == "";
      assert Seqs.FindIndex("", Is('\n')) == -1;
      assert Split("", '\n') == [""];
      assert !IsInternal("");
    }
  }

  /** With no internal line, the trace is the whole remainder. */
  lemma TraceWhole(rest: string)
    requires forall i :: 0 <= i < |Split(rest, '\n')| ==> !IsInternal(Split(rest, '\n')[i])
    ensures Trace(rest) == rest
  {
    KeepAfterLastInternalSpec(Split(rest, '\n'));
    JoinSplit(rest, '\n');
  }

  /** The taxonomy's fixed names tell the kinds apart. */
  lemma ErrorKindsDistinct(m1: string, m2: string, s1: Option<string>, s2: Option<string>)
    ensures NewQueryEmptyError(m1, s1) != NewQueryMultipleError(m2, s2)
    ensures NewQueryEmptyError(m1, s1).IsQueryError() && NewQueryMultipleError(m2, s2).IsQueryError()
  {
    assert EmptyErrorName[6] != MultipleErrorName[6];
  }
}
