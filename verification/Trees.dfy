/** Labelled trees: what a dump of the database shows, and how a path is resolved in one. */
module Trees {
  import opened DbModel

  datatype Tree = Leaf(name: string, value: Option<Value>) | Dir(name: string, kids: seq<Tree>)

  function Kids(t: Tree): seq<Tree> {
    match t case Leaf(_, _) => [] case Dir(_, kids) => kids
  }

  /** One printed line of the dump; the depth is its indentation. */
  datatype Line = FileLine(depth: nat, name: string, value: Option<Value>) | DirLine(depth: nat, name: string)

  /** The lines of a tree, parent before children, siblings in order. */
  function Flatten(t: Tree, depth: nat): seq<Line>
    decreases t, 0
  {
    match t
    case Leaf(name, value) => [FileLine(depth, name, value)]
    case Dir(name, kids) => [DirLine(depth, name)] + FlattenAll(kids, depth + 1)
  }

  function FlattenAll(ts: seq<Tree>, depth: nat): seq<Line>
    decreases ts, 1
  {
    if ts == [] then [] else Flatten(ts[0], depth) + FlattenAll(ts[1..], depth)
  }
}
