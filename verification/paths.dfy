/** File-system paths as sequences of components. `PathBuf::join` with a
    plain file or directory name appends one component, and an empty
    `PathBuf` is the empty sequence. */
module Paths {

  datatype Path = Path(components: seq<string>)

  function Join(dir: Path, name: string): Path {
    Path(dir.components + [name])
  }

  predicate IsEmpty(p: Path) {
    p.components == []
  }

  /** Joining a name gives a path whose parent is the directory and whose
      last component is the name, so two joins agree only on equal inputs. */
  lemma JoinInjective(d1: Path, n1: string, d2: Path, n2: string)
    ensures Join(d1, n1) == Join(d2, n2) <==> d1 == d2 && n1 == n2
  {
    if Join(d1, n1) == Join(d2, n2) {
      var c1 := d1.components + [n1];
      var c2 := d2.components + [n2];
      assert c1[..|c1| - 1] == d1.components;
      assert c2[..|c2| - 1] == d2.components;
    }
  }
}

/** Durable storage as the swarm code sees it: a file is absent, present but
    unreadable, present but not parseable, or parsed into a value. */
module Storage {
  import opened Paths

  datatype StoredFile<T> = Parsed(content: T) | Unreadable | Malformed

  /** Files by path; a path that is not a key does not exist (`NotFound`). */
  type FileSystem<T> = map<Path, StoredFile<T>>
}
