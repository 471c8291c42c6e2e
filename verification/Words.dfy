/** The integer types of the C sources, as ranges of int. */
module Words {
  type byte = x: int | 0 <= x < 0x100
  type uint16 = x: int | 0 <= x < 0x1_0000
  type uint32 = x: int | 0 <= x < 0x1_0000_0000

  type Bytes = seq<byte>

  /** All pieces of a stream, one after the other. */
  ghost function Join<T>(pieces: seq<seq<T>>): seq<T> {
    if pieces == [] then [] else pieces[0] + Join(pieces[1..])
  }

  lemma {:induction false} JoinLast<T>(pieces: seq<seq<T>>)
    requires pieces != []
    ensures Join(pieces) == Join(pieces[..|pieces| - 1]) + pieces[|pieces| - 1]
  {
    var last := |pieces| - 1;
    if last == 0 {
      assert pieces[1..] == [] && pieces[..last] == [];
    } else {
      JoinLast(pieces[1..]);
      assert pieces[1..][..last - 1] == pieces[..last][1..];
    }
  }

  lemma NoneLeft<T>(kept: seq<T>, pieces: seq<seq<T>>, s: seq<T>)
    requires s == kept + Join(pieces)
    ensures pieces == [] ==> s == kept
  {
  }

  /** What is kept and the first piece, the pieces after it, and the stream they make up. */
  lemma Ahead<T>(kept: seq<T>, pieces: seq<seq<T>>, s: seq<T>, t: seq<T>)
    requires pieces != [] && s == kept + Join(pieces) && t == kept + pieces[0]
    ensures s == t + Join(pieces[1..]) && s[|t|..] == Join(pieces[1..]) && s[..|t|] == t
  {
  }
}
