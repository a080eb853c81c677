/** The character record of the initiative tracker (src/types/Character.ts). */
module Characters {

  /** An optional value; used for the optional `link` key of a record. */
  datatype Option<+T> = None | Some(value: T)

  /** One tracked player or monster. Numbers are unbounded integers; the
      string fields carry no logic and are kept as plain strings. */
  datatype Character = Character(
    id: int,
    name: string,
    maxHp: int,
    currentHp: int,
    tempHp: int,
    ac: int,
    initiative: int,
    link: Option<string>,
    dead: bool,
    color: string)

  /** Concatenation regroups freely; stated once so that proofs about the
      roster and about names can name the step. */
  lemma ConcatAssoc<T>(p: seq<T>, q: seq<T>, r: seq<T>)
    ensures p + (q + r) == (p + q) + r
  {
  }
}
