/**
 What the active manifest and the activation tokens of a version store amount to
 (`activate_locked` and `rollback` in `crates/runonmine-connectors/src/versioned_binary.rs`).

 The store keeps one flat manifest and hands out tokens that remember the manifest before and
 after. Because every activation has a fresh identity this behaves like a stack.
 */
module ActivationStack {
  import opened Common

  const MANIFEST_VERSION: nat := 1

  /** The nil identity, which no activation gets. */
  const NIL: nat := 0

  datatype Manifest = Manifest(version: nat, versionId: string, activationId: nat)

  /** `ManagedBinaryActivation`. */
  datatype Token = Token(previous: Option<Manifest>, current: Manifest)

  /**
   The history behind a manifest: `base` was active first, `stack` are the activations not
   rolled back, oldest first, `issued` are all activations there ever were and `ids` all
   identities ever used.
   */
  datatype Past = Past(base: Option<Manifest>, stack: seq<Token>, issued: set<Token>, ids: set<nat>)

  function Top(past: Past): Option<Manifest> {
    if past.stack == [] then past.base else Some(past.stack[|past.stack| - 1].current)
  }

  /** Each activation remembers the manifest below it, and none is on the stack twice. */
  ghost predicate Chained(past: Past)
    decreases |past.stack|
  {
    past.stack == [] ||
    var last := past.stack[|past.stack| - 1];
    last in past.issued && last !in Pop(past).stack && last.previous == Top(Pop(past)) && Chained(Pop(past))
  }

  /** Identities tell all activations apart, from each other and from what was active first. */
  ghost predicate Distinct(past: Past) {
    && (forall t | t in past.issued :: t.current.activationId in past.ids)
    && (forall t, u | t in past.issued && u in past.issued ::
         t.current.activationId == u.current.activationId ==> t == u)
    && (past.base.Some? ==>
      && past.base.value.activationId in past.ids
      && forall t | t in past.issued :: t.current.activationId != past.base.value.activationId)
  }

  ghost predicate Consistent(past: Past) {
    Chained(past) && Distinct(past)
  }

  function Push(past: Past, current: Manifest): Past {
    var token := Token(Top(past), current);
    Past(past.base, past.stack + [token], past.issued + {token}, past.ids + {current.activationId})
  }

  function Pop(past: Past): Past
    requires past.stack != []
  {
    past.(stack := past.stack[..|past.stack| - 1])
  }

  lemma {:induction false} MoreIssued(past: Past, issued: set<Token>, ids: set<nat>)
    requires Chained(past) && past.issued <= issued
    ensures Chained(past.(issued := issued, ids := ids))
    ensures forall t | t in past.stack :: t in past.issued
    decreases |past.stack|
  {
    if past.stack != [] {
      var n := |past.stack| - 1;
      MoreIssued(Pop(past), issued, ids);
      assert past.stack == past.stack[..n] + [past.stack[n]];
      assert Pop(past.(issued := issued, ids := ids)) == Pop(past).(issued := issued, ids := ids);
    }
  }

  /** Activating and rolling that activation back leaves only the memory of it. */
  lemma PushPop(past: Past, current: Manifest)
    ensures Pop(Push(past, current)) ==
      past.(issued := past.issued + {Token(Top(past), current)}, ids := past.ids + {current.activationId})
    ensures Top(Pop(Push(past, current))) == Top(past)
  {
    assert Push(past, current).stack[..|past.stack|] == past.stack;
  }

  lemma PushKeeps(past: Past, current: Manifest)
    requires Consistent(past) && current.activationId !in past.ids
    ensures Consistent(Push(past, current)) && Top(Push(past, current)) == Some(current)
  {
    var pushed := Push(past, current);
    MoreIssued(past, pushed.issued, pushed.ids);
    PushPop(past, current);
    assert Distinct(pushed);
    hide Distinct;
  }

  /** Popping gives back exactly the manifest that was active before the activation on top. */
  lemma PopKeeps(past: Past)
    requires Consistent(past) && past.stack != []
    ensures Consistent(Pop(past))
    ensures Top(Pop(past)) == past.stack[|past.stack| - 1].previous
  {
  }

  /**
   The test `rollback` makes on the flat manifest passes for one token only, the one on top.
   A token that is buried passes again only when everything above it has been popped, and one
   that was popped never does.
   */
  lemma UsableIffTop(past: Past, token: Token)
    requires Consistent(past) && token in past.issued
    ensures Top(past) == Some(token.current) <==> past.stack != [] && past.stack[|past.stack| - 1] == token
    ensures forall k | 0 <= k < |past.stack| && past.stack[k] == token ::
      Top(past) == Some(token.current) <==> k == |past.stack| - 1
    ensures token !in past.stack ==> Top(past) != Some(token.current)
  {
    var n := |past.stack| - 1;
    if past.stack != [] {
      assert past.stack == past.stack[..n] + [past.stack[n]];
    }
  }

  // ---- Whole runs --------------------------------------------------------------------------------

  datatype Operation = Activate(manifest: Manifest) | Rollback(token: Token)

  /** What the code does: it compares and replaces the one flat manifest. */
  function FlatStep(active: Option<Manifest>, operation: Operation): Option<Manifest> {
    match operation
    case Activate(manifest) => Some(manifest)
    case Rollback(token) => if active == Some(token.current) then token.previous else active
  }

  function FlatRun(active: Option<Manifest>, operations: seq<Operation>): Option<Manifest>
    decreases |operations|
  {
    if operations == [] then active else FlatRun(FlatStep(active, operations[0]), operations[1..])
  }

  /** The reference: a stack on which only the top can be popped. */
  function StackStep(past: Past, operation: Operation): Past {
    match operation
    case Activate(manifest) => Push(past, manifest)
    case Rollback(token) => if past.stack != [] && past.stack[|past.stack| - 1] == token then Pop(past) else past
  }

  function StackRun(past: Past, operations: seq<Operation>): Past
    decreases |operations|
  {
    if operations == [] then past else StackRun(StackStep(past, operations[0]), operations[1..])
  }

  /** Activations get fresh identities, and a token is rolled back only after it was issued. */
  ghost predicate LegalStep(past: Past, operation: Operation) {
    match operation
    case Activate(manifest) => manifest.activationId !in past.ids
    case Rollback(token) => token in past.issued
  }

  ghost predicate Legal(past: Past, operations: seq<Operation>)
    decreases |operations|
  {
    operations != [] ==> LegalStep(past, operations[0]) && Legal(StackStep(past, operations[0]), operations[1..])
  }

  lemma StepRefines(past: Past, operation: Operation)
    requires Consistent(past) && LegalStep(past, operation)
    ensures Consistent(StackStep(past, operation))
    ensures FlatStep(Top(past), operation) == Top(StackStep(past, operation))
  {
    hide Consistent;
    match operation {
      case Activate(manifest) => PushKeeps(past, manifest);
      case Rollback(token) =>
        UsableIffTop(past, token);
        if Top(past) == Some(token.current) {
          PopKeeps(past);
        }
    }
  }

  /** The flat manifest and its tokens refine the stack over every run. */
  lemma {:induction false} FlatRefinesStack(past: Past, operations: seq<Operation>)
    requires Consistent(past) && Legal(past, operations)
    ensures FlatRun(Top(past), operations) == Top(StackRun(past, operations))
    ensures Consistent(StackRun(past, operations))
    decreases |operations|
  {
    hide Consistent;
    if operations != [] {
      StepRefines(past, operations[0]);
      FlatRefinesStack(StackStep(past, operations[0]), operations[1..]);
    }
  }

  /** An activation that was rolled back stays so: over every later run its token is of no use. */
  lemma {:induction false} PoppedStaysPopped(past: Past, operations: seq<Operation>, token: Token)
    requires Consistent(past) && Legal(past, operations)
    requires token in past.issued && token !in past.stack
    ensures token in StackRun(past, operations).issued && token !in StackRun(past, operations).stack
    ensures FlatRun(Top(past), operations) != Some(token.current)
    decreases |operations|
  {
    if operations == [] {
      UsableIffTop(past, token);
    } else {
      assert token.current.activationId in past.ids;
      hide Consistent;
      StepRefines(past, operations[0]);
      PoppedStaysPopped(StackStep(past, operations[0]), operations[1..], token);
    }
  }
}
