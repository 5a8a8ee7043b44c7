/**
 * The record store: the singly linked list of movies that main.c builds
 * (`struct movie`, `create_movie`, `add_movie`).
 */
module Records {

  /** The part of one movie that the program keeps and uses. */
  datatype Movie = Movie(title: string, year: int, languages: string)

  /**
   * One `struct movie` node. Its title, year and languages are set once by
   * `create_movie` and never change; only `next` is updated, when a node is
   * appended behind it. Dafny strings are values, so the node owns its own
   * copy just as the `strdup` calls give it.
   */
  class Node {
    const title: string
    const year: int
    const languages: string
    var next: Node?

    /** The movie this node holds. */
    function Record(): Movie
    {
      Movie(title, year, languages)
    }

    /** create_movie: a node holding the given fields and no successor. */
    constructor (title: string, year: int, languages: string)
      ensures Record() == Movie(title, year, languages)
      ensures next == null
    {
      this.title := title;
      this.year := year;
      this.languages := languages;
      this.next := null;
    }
  }

  /**
   * The list reached from `*head`. The ghost sequence `nodes` lists the
   * nodes in link order, `Contents` the movies they hold and `Repr` the
   * list object together with its nodes.
   */
  class MovieList {
    var head: Node?
    ghost var nodes: seq<Node>
    ghost var Contents: seq<Movie>
    ghost var Repr: set<object>

    /** `head` starts the chain nodes[0] -> nodes[1] -> … -> NULL, and the nodes hold Contents. */
    ghost predicate Valid()
      reads this, Repr
    {
      && this in Repr
      && (forall i :: 0 <= i < |nodes| ==> nodes[i] in Repr)
      && |nodes| == |Contents|
      && (if nodes == [] then head == null else head == nodes[0])
      && (forall i :: 0 <= i < |nodes| ==> nodes[i].Record() == Contents[i])
      && (forall i :: 0 <= i < |nodes| - 1 ==> nodes[i].next == nodes[i + 1])
      && (nodes != [] ==> nodes[|nodes| - 1].next == null)
    }

    /** `Movie *head = NULL;` */
    constructor ()
      ensures Valid() && head == null
      ensures nodes == [] && Contents == [] && Repr == {this}
    {
      head := null;
      nodes := [];
      Contents := [];
      Repr := {this};
    }

    /**
     * add_movie: creates a node and links it after the last node, walking
     * the chain from `head`; an empty list gets it as its head. The movies
     * already present, and their nodes, stay as they were.
     */
    method AddMovie(title: string, year: int, languages: string)
      requires Valid()
      modifies Repr
      ensures Valid()
      ensures Contents == old(Contents) + [Movie(title, year, languages)]
      ensures |nodes| == |old(nodes)| + 1 && nodes[..|old(nodes)|] == old(nodes)
      ensures Repr == old(Repr) + {nodes[|nodes| - 1]}
      ensures fresh(nodes[|nodes| - 1]) && nodes[|nodes| - 1].next == null
      ensures old(head) != null ==> head == old(head)
    {
      var node := new Node(title, year, languages);
      if head == null {
        head := node;
      } else {
        var temp := head;
        ghost var k := 0;
        while temp.next != null
          invariant Valid()
          invariant 0 <= k < |nodes| && temp == nodes[k]
          decreases |nodes| - k
        {
          temp := temp.next;
          k := k + 1;
        }
        // Only the last node has no successor, so `temp` is the last node and no other.
        forall i | 0 <= i < |nodes| - 1
          ensures nodes[i] != temp
        {
          assert nodes[i].next == nodes[i + 1];
        }
        assert k == |nodes| - 1;
        temp.next := node;
      }
      nodes := nodes + [node];
      Contents := Contents + [node.Record()];
      Repr := Repr + {node};
    }
  }
}
