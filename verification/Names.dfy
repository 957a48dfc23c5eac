/**
 How trackers are named: root, and every other by the names of the trackers it
 is mounted in, one inside the other.
 */
module Names {
  const ROOT := "root"

  /** `name` below `parent`: a part of its own behind the parent's, unless that is root. */
  function ChildId(parent: string, name: string): string {
    if parent == ROOT then name else parent + "__" + name
  }
}
