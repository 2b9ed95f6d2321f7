/**
  The dependency-ordered build of compile/src/compiler.cpp.  Whether the command of a project succeeds is a
  parameter; dependencies must not form a cycle, on which the original would not return.
*/
module BuildDriver {
  import opened Words

  datatype Project = Project(name: string, depends: seq<string>, sources: bool)

  /** `FindProject`: the first project of that name. */
  function Find(projects: seq<Project>, name: string): (r: Option<nat>)
    ensures r.Some? ==> r.value < |projects| && projects[r.value].name == name
    ensures r.Some? ==> forall i :: 0 <= i < r.value ==> projects[i].name != name
    ensures r.None? ==> forall i :: 0 <= i < |projects| ==> projects[i].name != name
  {
    if projects == [] then None
    else if projects[0].name == name then Some(0)
    else match Find(projects[1..], name)
         case Some(i) => FindShift(projects, name, i); Some(i + 1)
         case None => FindNone(projects, name); None
  }

  lemma FindShift(projects: seq<Project>, name: string, i: nat)
    requires projects != [] && projects[0].name != name && i < |projects[1..]|
    requires forall j :: 0 <= j < i ==> projects[1..][j].name != name
    ensures forall j :: 0 <= j < i + 1 ==> projects[j].name != name
  {
    forall j | 0 <= j < i + 1 ensures projects[j].name != name {
      if j > 0 { assert projects[1..][j - 1].name != name; }
    }
  }

  lemma FindNone(projects: seq<Project>, name: string)
    requires projects != [] && projects[0].name != name
    requires forall j :: 0 <= j < |projects[1..]| ==> projects[1..][j].name != name
    ensures forall j :: 0 <= j < |projects| ==> projects[j].name != name
  {
    forall j | 0 <= j < |projects| ensures projects[j].name != name {
      if j > 0 { assert projects[1..][j - 1].name != name; }
    }
  }

  /** What a build works on: the projects, which commands succeed, and a measure that falls along dependencies. */
  datatype Plan = Plan(projects: seq<Project>, works: nat -> bool, rank: nat -> nat) {

    ghost predicate Acyclic() {
      forall i, d :: 0 <= i < |projects| && d in projects[i].depends && Find(projects, d).Some? ==>
        rank(Find(projects, d).value) < rank(i)
    }

    /** The project can be built: its command succeeds, and its dependencies are there and can be built. */
    ghost predicate Buildable(i: nat)
      requires Acyclic() && i < |projects|
      decreases rank(i)
    {
      && (projects[i].sources ==> works(i))
      && forall d :: d in projects[i].depends ==> Find(projects, d).Some? && Buildable(Find(projects, d).value)
    }

    /** Every project of the list is there once, after its dependencies. */
    ghost predicate Ordered(order: seq<nat>) {
      forall k :: 0 <= k < |order| ==>
        && order[k] < |projects| && order[k] !in order[..k]
        && forall d :: d in projects[order[k]].depends ==>
             Find(projects, d).Some? && Find(projects, d).value in order[..k]
    }

    /** The commands of the projects that have any. */
    function Commands(order: seq<nat>): seq<nat> {
      if order == [] then []
      else
        var last := order[|order| - 1];
        Commands(order[..|order| - 1]) + if last < |projects| && projects[last].sources then [last] else []
    }
  }

  /** The commands are those of the projects that have sources, and no others. */
  lemma {:induction false} CommandsExactly(plan: Plan, order: seq<nat>, c: nat)
    ensures c in plan.Commands(order) <==> c in order && c < |plan.projects| && plan.projects[c].sources
  {
    if order != [] {
      var n := |order| - 1;
      CommandsExactly(plan, order[..n], c);
      assert order == order[..n] + [order[n]];
    }
  }

  lemma CommandsIn(plan: Plan, order: seq<nat>)
    ensures forall c :: c in plan.Commands(order) ==> c in order
  {
    forall c | c in plan.Commands(order) ensures c in order { CommandsExactly(plan, order, c); }
  }

  /** Every command is given once. */
  lemma {:induction false} CommandsOnce(plan: Plan, order: seq<nat>)
    requires plan.Ordered(order)
    ensures forall i, j :: 0 <= i < j < |plan.Commands(order)| ==> plan.Commands(order)[i] != plan.Commands(order)[j]
  {
    if order != [] {
      var n := |order| - 1;
      OrderedInit(plan, order, n);
      CommandsOnce(plan, order[..n]);
      CommandsIn(plan, order[..n]);
      assert order[n] !in order[..n];
    }
  }

  lemma OrderedInit(plan: Plan, order: seq<nat>, n: nat)
    requires plan.Ordered(order) && n <= |order|
    ensures plan.Ordered(order[..n])
  {
    forall k | 0 <= k < n ensures order[..n][..k] == order[..k] {}
  }

  lemma OrderedSnoc(plan: Plan, order: seq<nat>, i: nat)
    requires plan.Ordered(order) && i < |plan.projects| && i !in order
    requires forall d :: d in plan.projects[i].depends ==>
      Find(plan.projects, d).Some? && Find(plan.projects, d).value in order
    ensures plan.Ordered(order + [i])
    ensures plan.Commands(order + [i]) == plan.Commands(order) + if plan.projects[i].sources then [i] else []
  {
    var order' := order + [i];
    assert order'[..|order|] == order;
    forall k | 0 <= k < |order| ensures order'[..k] == order[..k] && order'[k] == order[k] {}
  }

  class Driver {
    ghost const plan: Plan
    const projects: seq<Project>
    const works: nat -> bool
    var compiled: set<nat>
    var commands: seq<nat>
    ghost var order: seq<nat>

    constructor (plan: Plan)
      ensures this.plan == plan && projects == plan.projects && works == plan.works
      ensures order == [] && compiled == {} && commands == []
    {
      this.plan, projects, works := plan, plan.projects, plan.works;
      compiled, commands, order := {}, [], [];
    }

    ghost predicate Valid()
      reads this
    {
      && projects == plan.projects && works == plan.works && plan.Acyclic()
      && (forall i :: i in compiled <==> i in order)
      && plan.Ordered(order)
      && forall i :: i in order ==> plan.Buildable(i)
    }

    /** Nothing has failed so far: exactly the commands of the compiled projects have been given. */
    ghost predicate Clean()
      reads this
    {
      Valid() && commands == plan.Commands(order)
    }

    /** A command has failed, or a dependency was not found: nothing is given twice, and nothing more is marked. */
    ghost predicate Stopped()
      reads this
    {
      Valid() && (commands == plan.Commands(order)
        || exists f :: f !in order && commands == plan.Commands(order) + [f])
    }

    /** `project::compile` */
    method Compile(i: nat) returns (success: bool)
      requires Clean() && i < |projects|
      modifies this
      ensures success <==> plan.Buildable(i)
      ensures success ==> Clean() && i in compiled
      ensures !success ==> Stopped()
      ensures old(order) <= order && forall j :: j in order && j !in old(order) ==> plan.rank(j) <= plan.rank(i)
      decreases plan.rank(i), 1
    {
      if i in compiled {
        return true;
      }
      success := Depend(i);
      if !success {
        return;
      }
      success := Execute(i);
      if success { Mark(i); }
    }

    /** The command, if there are sources to compile. */
    method Execute(i: nat) returns (success: bool)
      requires Clean() && i < |projects| && i !in order
      modifies this`commands
      ensures Valid() && (success <==> (projects[i].sources ==> works(i)))
      ensures commands == plan.Commands(order) + if projects[i].sources then [i] else []
    {
      success := true;
      if projects[i].sources {
        commands := commands + [i];
        success := works(i);
      } else {
        assert commands == commands + [];
      }
    }

    method Mark(i: nat)
      requires Valid() && i < |projects| && i !in order && plan.Buildable(i)
      requires commands == plan.Commands(order) + if projects[i].sources then [i] else []
      requires forall d :: d in projects[i].depends ==> Find(projects, d).Some? && Find(projects, d).value in order
      modifies this`compiled, this`order
      ensures Clean() && order == old(order) + [i]
    {
      OrderedSnoc(plan, order, i);
      compiled := compiled + {i};
      order := order + [i];
    }

    /** `project::depend` */
    method Depend(i: nat) returns (success: bool)
      requires Clean() && i < |projects| && i !in order
      modifies this
      ensures success <==>
        forall d :: d in projects[i].depends ==> Find(projects, d).Some? && plan.Buildable(Find(projects, d).value)
      ensures success ==>
        && Clean() && i !in order
        && forall d :: d in projects[i].depends ==> Find(projects, d).Some? && Find(projects, d).value in order
      ensures !success ==> Stopped()
      ensures old(order) <= order && forall j :: j in order && j !in old(order) ==> plan.rank(j) < plan.rank(i)
      decreases plan.rank(i), 0
    {
      success := true;
      var k := 0;
      while success && k < |projects[i].depends|
        invariant 0 <= k <= |projects[i].depends|
        invariant success ==> Clean() && forall j :: 0 <= j < k ==>
          Find(projects, projects[i].depends[j]).Some? && Find(projects, projects[i].depends[j]).value in order
        invariant !success ==>
          && Stopped() && k > 0 && Find(projects, projects[i].depends[k - 1]).Some?
          && !plan.Buildable(Find(projects, projects[i].depends[k - 1]).value)
        invariant old(order) <= order && forall j :: j in order && j !in old(order) ==> plan.rank(j) < plan.rank(i)
      {
        var name := projects[i].depends[k];
        assert name in projects[i].depends;
        match Find(projects, name)
        case None => return false;
        case Some(p) =>
          success := Compile(p);
          k := k + 1;
      }
    }

    /** The loop of `main` over the project list. */
    method Build() returns (success: bool)
      requires Clean()
      modifies this
      ensures success <==> forall i :: 0 <= i < |projects| ==> plan.Buildable(i)
      ensures success ==> Clean() && forall i :: 0 <= i < |projects| ==> i in compiled
      ensures success ==> forall i :: 0 <= i < |projects| && projects[i].sources ==> works(i) && i in commands
      ensures !success ==> Stopped()
    {
      success := true;
      var i := 0;
      while success && i < |projects|
        invariant 0 <= i <= |projects|
        invariant success ==> Clean() && forall j :: 0 <= j < i ==> j in compiled
        invariant !success ==> Stopped() && i > 0 && !plan.Buildable(i - 1)
      {
        ghost var before := order;
        success := Compile(i);
        assert forall j :: j in before ==> j in order;
        i := i + 1;
      }
      if success {
        forall i | 0 <= i < |projects| && projects[i].sources ensures works(i) && i in commands {
          assert plan.Buildable(i);
          CommandsExactly(plan, order, i);
        }
      }
    }
  }
}
