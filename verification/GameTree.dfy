/** The game tree as the review code sees it: nodes with an id, SGF properties
    and an ordered list of children, and the one editing operation it uses,
    `draft.updateProperty(id, name, values)` inside `tree.mutate`. */
module GameTree {

  type NodeId = nat

  /** A node's SGF properties: property name to its list of values (`node.data`). */
  type Props = map<string, seq<string>>

  datatype Node = Node(id: NodeId, data: Props, children: seq<Node>)

  /** The properties of every node of a tree snapshot, by node id. */
  type PropertyMap = map<NodeId, Props>

  /** `draft.updateProperty(id, name, values)`: the property `name` of node `id` becomes
      `values`; every other property of every node is kept. An unknown id changes nothing. */
  function UpdateProperty(m: PropertyMap, id: NodeId, name: string, values: seq<string>): (r: PropertyMap)
    ensures r.Keys == m.Keys
    ensures id in m ==> r[id].Keys == m[id].Keys + {name} && r[id][name] == values
    ensures forall i :: i in m && i != id ==> r[i] == m[i]
    ensures forall i, p :: i in m && p in m[i] && (i, p) != (id, name) ==> r[i][p] == m[i][p]
  {
    if id in m then m[id := m[id][name := values]] else m
  }
}
