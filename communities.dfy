/** The data the matcher consumes and produces: per-timestep community
    detections, the (timestep, label) nodes they define, and the
    backward-link map between nodes. */
module Communities {

  type Label = string
  type Member = int

  datatype Option<T> = None | Some(value: T)

  /** One community of one snapshot: its label and its member set. */
  datatype Community = Community(name: Label, members: set<Member>)

  /** The communities of one timestep, in the order the snapshot lists them. */
  type Snapshot = seq<Community>

  type Timeseries = seq<Snapshot>

  /** A community at a timestep: the unit that links connect. */
  datatype Node = Node(t: nat, name: Label)

  /** The backward-link map: a node to the node it continues. */
  type Links = map<Node, Node>

  /** The labels of a snapshot, in order (the keys of the snapshot). */
  function Names(s: Snapshot): (r: seq<Label>)
    ensures |r| == |s|
    ensures forall o :: 0 <= o < |s| ==> r[o] == s[o].name
  {
    seq(|s|, o requires 0 <= o < |s| => s[o].name)
  }

  /** Labels identify the communities of one snapshot. */
  predicate UniqueNames(s: Snapshot) {
    forall a, b :: 0 <= a < b < |s| ==> s[a].name != s[b].name
  }

  predicate WellFormed(ts: Timeseries) {
    forall t :: 0 <= t < |ts| ==> UniqueNames(ts[t])
  }

  /** `n` names a community of the timeseries. */
  predicate IsNode(ts: Timeseries, n: Node) {
    n.t < |ts| && n.name in Names(ts[n.t])
  }

  /** Position of the first community labelled `name`. */
  function IndexOf(s: Snapshot, name: Label): (o: nat)
    requires name in Names(s)
    ensures o < |s| && s[o].name == name
    ensures forall p :: 0 <= p < o ==> s[p].name != name
  {
    if s[0].name == name then 0
    else
      assert Names(s[1..]) == Names(s)[1..];
      1 + IndexOf(s[1..], name)
  }

  /** With unique labels, looking a label up finds the community it labels. */
  lemma IndexOfUnique(s: Snapshot, o: nat)
    requires UniqueNames(s) && o < |s|
    ensures s[o].name in Names(s) && IndexOf(s, s[o].name) == o
  {
    assert Names(s)[o] == s[o].name;
  }

  /** The member set of a node: `timeseries[t][name]`. */
  function Members(ts: Timeseries, n: Node): (r: set<Member>)
    requires IsNode(ts, n)
    ensures exists o :: 0 <= o < |ts[n.t]| && ts[n.t][o].name == n.name && r == ts[n.t][o].members
    ensures UniqueNames(ts[n.t]) ==>
      forall o :: 0 <= o < |ts[n.t]| && ts[n.t][o].name == n.name ==> r == ts[n.t][o].members
  {
    ts[n.t][IndexOf(ts[n.t], n.name)].members
  }

  /** The nodes of timestep `t`, in snapshot order. */
  function NodesAt(ts: Timeseries, t: nat): (r: seq<Node>)
    requires t < |ts|
    ensures |r| == |ts[t]|
    ensures forall o :: 0 <= o < |r| ==> r[o] == Node(t, ts[t][o].name) && IsNode(ts, r[o])
  {
    seq(|ts[t]|, o requires 0 <= o < |ts[t]| => assert Names(ts[t])[o] == ts[t][o].name; Node(t, ts[t][o].name))
  }

  /** Every link leaves and reaches a community of the timeseries. */
  ghost predicate LinksInto(ts: Timeseries, links: Links) {
    forall n :: n in links ==> IsNode(ts, n) && IsNode(ts, links[n])
  }

  /** Every link points strictly back in time. */
  ghost predicate Backward(links: Links) {
    forall n :: n in links ==> links[n].t < n.t
  }

  /** No link reaches further back than `memory` timesteps. */
  ghost predicate WithinMemory(links: Links, memory: nat) {
    forall n :: n in links ==> n.t <= links[n].t + memory
  }
}
