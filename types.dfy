/** The record shapes shared by the placer and the viewers (src/types.ts, graphToRooms.ts). */
module Types {

  /** An optional value: the model's stand-in for JavaScript's `undefined`. */
  datatype Option<T> = None | Some(value: T)

  /** A website placed on the grid: its domain and the integer cell it occupies. */
  datatype Room = Room(domain: string, x: int, y: int)

  /**
   * The link graph: outgoing and incoming links per domain (either may lack an
   * entry for a domain), and badge images, which placement never reads.
   */
  datatype Graph = Graph(
    linksTo: map<string, seq<string>>,
    linkedFrom: map<string, seq<string>>,
    images: map<string, seq<string>>)
}
