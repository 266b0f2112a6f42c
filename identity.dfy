/** Duplicate-name resolution (`changeDuplicateAuthorNames`,
    gitlab-contributors.ts:239-250): the key under which a commit's author is
    written. A name already held by an entry with a different email is taken
    to belong to another person and gets the duplicate marker. */
module Identity {
  import opened Shapes

  const DuplicateMarker := "(duplicate)"

  /** The key the scan returns for `name` and `email`. At most one key can
      equal `name`, so the order in which the map is scanned does not matter. */
  function DisplayKey(name: string, email: string, contributors: map<string, Contributor>): (key: string)
    ensures key == name || key == name + DuplicateMarker
    ensures key in contributors ==> key == name + DuplicateMarker || contributors[key].email == email
  {
    if name in contributors && contributors[name].email != email then name + DuplicateMarker else name
  }

  /** The scan itself: walks the entries, returns the marked name at the first
      entry whose key is `name` and whose email differs, and the plain name
      when the walk finishes. It only reads the map. */
  method ResolveDisplayKey(name: string, email: string, contributors: map<string, Contributor>)
    returns (key: string)
    ensures key == DisplayKey(name, email, contributors)
    ensures key == name + DuplicateMarker
      <==> exists k | k in contributors :: k == name && contributors[k].email != email
    ensures key != name + DuplicateMarker ==> key == name
  {
    var unseen := contributors.Keys;
    while unseen != {}
      invariant unseen <= contributors.Keys
      invariant forall k | k in contributors.Keys - unseen :: !(k == name && contributors[k].email != email)
      decreases unseen
    {
      var k :| k in unseen;
      if k == name && email != contributors[k].email {
        return name + DuplicateMarker;
      }
      unseen := unseen - {k};
    }
    assert |name + DuplicateMarker| != |name|;
    return name;
  }

  /** Later commits from the (name, email) pair that first took a name keep
      accumulating under the unmarked name. */
  lemma OwnerKeepsPlainName(name: string, email: string, contributors: map<string, Contributor>)
    requires name in contributors && contributors[name].email == email
    ensures DisplayKey(name, email, contributors) == name
  {
  }

  /** A name held under a different email is always resolved to the marked
      key, which is never the original one. */
  lemma ClashGetsMarkedKey(name: string, email: string, contributors: map<string, Contributor>)
    requires name in contributors && contributors[name].email != email
    ensures DisplayKey(name, email, contributors) == name + DuplicateMarker
    ensures DisplayKey(name, email, contributors) != name
  {
    assert |name + DuplicateMarker| == |name| + 11;
  }
}
