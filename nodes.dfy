/** The country node variant (lib/graph/nodes.ts). */
module Nodes {
  import opened Core

  /**
   `new CountryNode(...)`: a node whose type is fixed to the country variant;
   the caller supplies everything else, and color and notes stay absent when
   not given.
   */
  function CountryNode(id: string, position: Position, data: Payload,
                       color: Option<string> := None, notes: Option<string> := None): (n: Node)
    ensures n.kind == Country && TypeTag(n.kind) == "country"
    ensures n.id == id && n.position == position && n.data == data
    ensures n.color == color && n.notes == notes
  {
    Node(id, Country, position, data, color, notes)
  }

  /** A country node built without color or notes has neither. */
  lemma CountryNodeDefaults(id: string, position: Position, data: Payload)
    ensures CountryNode(id, position, data).color == None
    ensures CountryNode(id, position, data).notes == None
  {
  }
}
