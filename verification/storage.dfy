/** The two kinds of output the program produces: named nodes of an XML
    `FileStorage` record and image files. Paths and actual I/O are not
    modelled, only the ordered list of writes. */
module Storage {
  import opened Device

  datatype Value =
    | IntValue(n: int)
    | RealValue(x: real)
    | MatrixValue(rows: seq<seq<real>>)

  datatype Write =
    | Node(key: string, value: Value)
    | ImageFile(name: string, image: Image)

  /** The name each write is stored under. */
  function NameOf(w: Write): string {
    if w.Node? then w.key else w.name
  }

  function Names(ws: seq<Write>): (names: seq<string>)
    ensures |names| == |ws|
    ensures forall i | 0 <= i < |ws| :: names[i] == NameOf(ws[i])
  {
    seq(|ws|, i requires 0 <= i < |ws| => NameOf(ws[i]))
  }
}
