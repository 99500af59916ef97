/**
 This module models the vertex record of the graph: a key, a free-text
 label ("info") and a numeric scratch field ("tag") that external
 algorithms read and write but the graph never interprets.
 */
module NodeInfo {

  /** A vertex record. The tag is a double in the source; it is a real here. */
  datatype Node = Node(key: int, info: string, tag: real)

  /** The record a freshly added vertex gets: its key, empty info, tag zero. */
  function NewNode(key: int): Node
  {
    Node(key, "", 0.0)
  }

}
