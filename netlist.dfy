/** The flat netlist that both analyses read, produced by flattening a
    hierarchical design. It is read-only input: no operation of the model
    changes it. */
module Netlist {

  datatype Option<T> = None | Some(value: T)

  /** Direction of a port. */
  datatype Dir = In | Out | InOut

  /** Node-side view of one instance port that a node reaches: the name of
      the instance, and the direction of the master-cell port behind it
      (None when the instance port has no master port). */
  datatype Conn = Conn(inst: string, dir: Option<Dir>)

  /** A signal of the flat cell: the direction of the cell's own boundary
      port on it (None for an internal node), and the instance ports it
      connects, in the netlist's map order. */
  datatype Node = Node(port: Option<Dir>, conns: seq<Conn>)

  /** Instance-side view of one instance port: its key in the instance's
      port map, the name and direction of the master-cell port, and the
      name of the node it connects to. */
  datatype InstPort = InstPort(key: string, port: string, dir: Dir, node: string)

  /** A leaf instance: the name of its master cell and its ports in map
      order (ascending key). */
  datatype Instance = Instance(master: string, ports: seq<InstPort>)

  /** A flat cell: nodes and instances, each keyed by name. */
  datatype Cell = Cell(nodes: map<string, Node>, insts: map<string, Instance>)

  /** The power and ground node names that every tool treats as global. */
  const Globals: set<string> := {"VDD", "VSS"}

  /** Every connection a node records points to an instance of the cell:
      the structural invariant of the netlist library. */
  ghost predicate WellFormed(cell: Cell)
  {
    forall n, c :: n in cell.nodes && c in cell.nodes[n].conns ==> c.inst in cell.insts
  }

  /** A subset is no larger than its superset. */
  lemma SubsetCard<T>(a: set<T>, b: set<T>)
    requires a <= b
    ensures |a| <= |b|
  {
    assert b == a + (b - a);
  }

  predicate StartsWith(s: string, prefix: string)
  {
    |prefix| <= |s| && s[..|prefix|] == prefix
  }

  predicate EndsWith(s: string, suffix: string)
  {
    |suffix| <= |s| && s[|s| - |suffix|..] == suffix
  }

  /** Sequence without repeated elements. */
  ghost predicate Distinct<T>(s: seq<T>)
  {
    forall i, j :: 0 <= i < j < |s| ==> s[i] != s[j]
  }
}
