/** Blending class constructors: the chained constructor call, then the implicit initialisation,
    then the rest of the explicit constructor. */
module Constructors {

  /** A statement: missing, a `super.new` call, a block, or anything else. */
  datatype Statement = Null | Chain(args: nat) | InBlock(block: PBlock) | Other(id: nat)

  class PBlock {
    /** A `begin` block and not a `fork`. */
    const isSeq: bool
    var list: seq<Statement>

    constructor (isSeq: bool)
      ensures this.isSeq == isSeq && list == []
    {
      this.isSeq := isSeq;
      list := [];
    }

    /** Make room and shift every statement up by one. */
    method PushStatementFront(that: Statement)
      requires isSeq
      modifies this
      ensures list == [that] + old(list)
    {
      list := list + [Null];
      var idx := |list| - 1;
      while idx > 0
        invariant 0 <= idx < |list| == |old(list)| + 1
        invariant forall k | 0 <= k < idx :: list[k] == old(list)[k]
        invariant forall k | idx < k < |list| :: list[k] == old(list)[k - 1]
      {
        list := list[idx := list[idx - 1]];
        idx := idx - 1;
      }
      list := list[0 := that];
    }

    /** Take out the chained constructor call, if the block starts with one. */
    method ExtractChainConstructor() returns (res: Statement)
      modifies this
      ensures res == FirstChain(old(list))
      ensures list == AfterChain(old(list))
    {
      if list == [] || !list[0].Chain? {
        return Null;
      }
      res := list[0];
      var idx := 0;
      while idx < |list| - 1
        invariant 0 <= idx < |list| == |old(list)|
        invariant forall k | 0 <= k < idx :: list[k] == old(list)[k + 1]
        invariant forall k | idx <= k < |list| :: list[k] == old(list)[k]
      {
        list := list[idx := list[idx + 1]];
        idx := idx + 1;
      }
      list := list[..|list| - 1];
    }

    /** Pushing a call to the front and extracting it again restores the block. */
    method PushThenExtract(chain: Statement) returns (res: Statement)
      requires isSeq && chain.Chain?
      modifies this
      ensures res == chain && list == old(list)
    {
      PushStatementFront(chain);
      res := ExtractChainConstructor();
    }

    /** And so does extracting a call and pushing it back. */
    method ExtractThenPush() returns (res: Statement)
      requires isSeq
      modifies this
      ensures list == old(list)
      ensures res != Null <==> old(list) != [] && old(list)[0].Chain?
    {
      res := ExtractChainConstructor();
      if res != Null {
        PushStatementFront(res);
      }
    }
  }

  function FirstChain(list: seq<Statement>): Statement {
    if list != [] && list[0].Chain? then list[0] else Null
  }

  function AfterChain(list: seq<Statement>): seq<Statement> {
    if list != [] && list[0].Chain? then list[1..] else list
  }

  /** A statement as a list, empty if it is missing. */
  function Single(s: Statement): seq<Statement> {
    if s == Null then [] else [s]
  }

  /** The call that a body starts with, or else one implied by a base class. */
  function ChainOf(body: seq<Statement>, hasBase: bool, baseArgs: nat): Statement {
    var given := FirstChain(body);
    if given == Null && hasBase then Chain(baseArgs) else given
  }

  class PFunction {
    var statement: Statement

    constructor (statement: Statement)
      ensures this.statement == statement
    {
      this.statement := statement;
    }

    /** The statements of the body. */
    ghost function Body(): seq<Statement>
      reads this, Block()
    {
      if statement.InBlock? then statement.block.list else Single(statement)
    }

    ghost function Block(): set<PBlock>
      reads this
    {
      if statement.InBlock? then {statement.block} else {}
    }

    /** A statement can be put in front: there is one already, and it is not a `fork`. */
    predicate Pushable()
      reads this
    {
      statement != Null && (statement.InBlock? ==> statement.block.isSeq)
    }

    method PushStatementFront(stmt: Statement)
      requires Pushable()
      modifies this, Block()
      ensures Body() == [stmt] + old(Body()) && Pushable()
      ensures Block() == old(Block()) || fresh(Block())
    {
      if !statement.InBlock? {
        var tmp := new PBlock(true);
        tmp.list := [statement];
        statement := InBlock(tmp);
      }
      statement.block.PushStatementFront(stmt);
    }

    method ExtractChainConstructor() returns (res: Statement)
      modifies this, Block()
      ensures res == FirstChain(old(Body())) && Body() == AfterChain(old(Body()))
      ensures Pushable() == old(Pushable()) && (statement == Null <==> old(statement == Null))
      ensures Block() == old(Block()) || (fresh(Block()) && Pushable())
    {
      if statement.Chain? {
        res := statement;
        var empty := new PBlock(true);
        statement := InBlock(empty);
      } else if statement.InBlock? {
        res := statement.block.ExtractChainConstructor();
      } else {
        res := Null;
      }
    }
  }

  /** The statement that an implicit constructor adds. */
  function Added(useNew2: PFunction?): Statement
    reads useNew2
  {
    if useNew2 == null then Null else useNew2.statement
  }

  // ----- a reference: the statements left, in order

  predicate StartsWithChain(body: seq<Statement>) {
    body != [] && body[0].Chain?
  }

  /** `blended` is the given call or the implied one, then `added` unless it is missing, then the
      rest of the body. */
  predicate InSequence(blended: seq<Statement>, body: seq<Statement>, added: Statement, hasBase: bool, baseArgs: nat) {
    var tail := if added == Null then [] else [added];
    if StartsWithChain(body) then blended == [body[0]] + tail + body[1..]
    else if hasBase then blended == [Chain(baseArgs)] + tail + body
    else blended == tail + body
  }

  /** The body is missing. */
  predicate NoBody(f: PFunction)
    reads f
  {
    f.statement == Null
  }

  predicate Forks(f: PFunction)
    reads f
  {
    f.statement.InBlock? && !f.statement.block.isSeq
  }

  lemma Sequenced(body: seq<Statement>, added: Statement, hasBase: bool, baseArgs: nat)
    ensures InSequence(Single(ChainOf(body, hasBase, baseArgs)) + Single(added) + AfterChain(body), body, added,
                       hasBase, baseArgs)
    ensures ChainOf(body, hasBase, baseArgs) != Null <==> StartsWithChain(body) || hasBase
  {
  }

  class PClass {
    /** The functions `new` and `new@`. */
    var explicit: PFunction?
    var implicit: PFunction?
    const hasBase: bool
    const baseArgs: nat

    constructor (explicit: PFunction?, implicit: PFunction?, hasBase: bool, baseArgs: nat)
      ensures this.explicit == explicit && this.implicit == implicit
      ensures this.hasBase == hasBase && this.baseArgs == baseArgs
    {
      this.explicit, this.implicit, this.hasBase, this.baseArgs := explicit, implicit, hasBase, baseArgs;
    }

    /** The two constructors are parsed separately and share nothing. */
    ghost predicate Separate()
      reads this, explicit, implicit
    {
      explicit != null && implicit != null ==> explicit != implicit && explicit.Block() !! implicit.Block()
    }

    ghost function Objects(): set<object>
      reads this, explicit, implicit
    {
      {this} + (if explicit == null then {} else {explicit} + explicit.Block())
             + (if implicit == null then {} else {implicit} + implicit.Block())
    }

    /** The call that the explicit constructor starts with, or else one implied by a base class. */
    ghost function ChainCall(): Statement
      reads this, explicit, if explicit == null then {} else explicit.Block()
    {
      ChainOf(if explicit == null then [] else explicit.Body(), hasBase, baseArgs)
    }

    /** Something has to be put in front of a body that cannot take it: one that is missing, with
        no implicit constructor to make up for it, or one that is a `fork`. */
    ghost predicate Stuck()
      reads this, explicit, implicit, if explicit == null then {} else explicit.Block()
    {
      if explicit == null then implicit != null && hasBase && !implicit.Pushable()
      else if implicit == null then ChainCall() != Null && !explicit.Pushable()
      else (ChainCall() != Null || implicit.statement != Null) && explicit.statement != Null && !explicit.Pushable()
    }

    /** The statements that construction runs, in order. */
    ghost function Blended(): seq<Statement>
      reads this, explicit, implicit, if explicit == null then {} else explicit.Block(),
            if implicit == null then {} else implicit.Block()
    {
      if explicit == null then
        if implicit == null then [] else Single(ChainCall()) + implicit.Body()
      else
        Single(ChainCall()) + (if implicit == null then [] else Single(implicit.statement))
        + AfterChain(explicit.Body())
    }

    /** Blend the constructors. `ok` is false where the source's assertions fail, exactly when
        the bodies are stuck. Otherwise the one constructor left runs the blended statements. */
    method BlendClassConstructors() returns (ok: bool)
      requires Separate()
      modifies Objects()
      ensures ok <==> !old(Stuck())
      ensures explicit == old(explicit)
      ensures ok ==> implicit == if explicit == null then old(implicit) else null
      ensures ok && explicit != null ==> explicit.Body() == old(Blended())
      ensures ok && explicit == null && implicit != null ==> implicit.Body() == old(Blended())
      ensures ok && explicit != null ==>
        InSequence(explicit.Body(), old(explicit.Body()), old(Added(implicit)), hasBase, baseArgs)
      ensures ok && explicit == null && implicit != null ==>
        implicit.Body() == (if hasBase then [Chain(baseArgs)] else []) + old(implicit.Body())
      ensures explicit != null ==>
        (!ok <==> old((StartsWithChain(explicit.Body()) || hasBase || Added(implicit) != Null)
                      && (Forks(explicit) || (NoBody(explicit) && implicit == null))))
      ensures explicit == null && old(implicit) != null ==>
        (!ok <==> hasBase && old(Forks(implicit) || NoBody(implicit)))
      ensures explicit == null && old(implicit) == null ==> ok
      ensures ok && explicit != null && old(implicit) != null ==>
        old(implicit).statement == old(implicit.statement) && old(implicit).Body() == old(implicit.Body())
    {
      hide AfterChain, InSequence, StartsWithChain;
      if explicit != null {
        Sequenced(explicit.Body(), Added(implicit), hasBase, baseArgs);
        ok := BlendInto(explicit, implicit, hasBase, baseArgs);
        if ok {
          implicit := null;
        }
      } else if implicit != null {
        ok := PushUnlessMissing(implicit, if hasBase then Chain(baseArgs) else Null, false);
      } else {
        ok := true;
      }
    }
  }

  /** Blend into an explicit constructor: its chained call is set aside, or one is implied; the
      implicit constructor's statement goes in front; and the call goes in front of that. */
  method BlendInto(useNew: PFunction, useNew2: PFunction?, hasBase: bool, baseArgs: nat) returns (ok: bool)
    requires useNew2 != null ==> useNew2 != useNew && useNew.Block() !! useNew2.Block()
    modifies useNew, useNew.Block()
    ensures ok <==> old(
      var chain, added := ChainOf(useNew.Body(), hasBase, baseArgs), Added(useNew2);
      (chain == Null && added == Null) || (useNew2 != null && useNew.statement == Null) || useNew.Pushable())
    ensures ok ==>
      useNew.Body()
      == old(Single(ChainOf(useNew.Body(), hasBase, baseArgs)) + Single(Added(useNew2)) + AfterChain(useNew.Body()))
  {
    hide Single, AfterChain;
    ghost var body, filled := useNew.Body(), useNew2 != null && useNew.statement == Null;
    var added := Added(useNew2);
    var chainNew := useNew.ExtractChainConstructor();
    if chainNew == Null && hasBase {
      chainNew := Chain(baseArgs);
    }
    assert chainNew == ChainOf(body, hasBase, baseArgs);
    if useNew2 != null {
      ok := PushUnlessMissing(useNew, added, true);
      if !ok {
        return;
      }
      assert useNew.Body() == Single(added) + AfterChain(body);
    } else {
      NoStatement();
      assert useNew.Body() == Single(added) + AfterChain(body);
    }
    ok := PushUnlessMissing(useNew, chainNew, false);
    Regroup(Single(chainNew), Single(added), AfterChain(body));
  }

  lemma NoStatement()
    ensures Single(Null) == []
  {
  }

  lemma Regroup(a: seq<Statement>, b: seq<Statement>, c: seq<Statement>)
    ensures a + (b + c) == a + b + c
  {
  }

  /** Put `that` in front of a constructor's body, if there is anything to put there. A missing
      body may be `filled` first. */
  method PushUnlessMissing(useNew: PFunction, that: Statement, filled: bool) returns (ok: bool)
    requires that.InBlock? ==> that.block !in useNew.Block()
    modifies useNew, useNew.Block()
    ensures ok <==> that == Null || old((filled && useNew.statement == Null) || useNew.Pushable())
    ensures ok ==> useNew.Body() == Single(that) + old(useNew.Body())
    ensures useNew.Pushable() == old((filled && useNew.statement == Null) || useNew.Pushable())
    ensures useNew.Block() == old(useNew.Block()) || fresh(useNew.Block())
  {
    if filled && useNew.statement == Null {
      var empty := new PBlock(true);
      useNew.statement := InBlock(empty);
    }
    if that == Null {
      return true;
    }
    if !useNew.Pushable() {
      return false;
    }
    useNew.PushStatementFront(that);
    ok := true;
  }
}
