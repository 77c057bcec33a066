/** The duplicate check made before a new tag is created. */
module Tags {
  import opened Records

  /** Every tag row the scan reaches carries a `name`: each one up to and
      including the first whose name is `tagText`.  Rows after that match
      are never read. */
  predicate NamedUntilMatch(tagText: string, tags: seq<Fields>)
  {
    tags == [] || ("name" in tags[0] && (tags[0]["name"] == Text(tagText) || NamedUntilMatch(tagText, tags[1..])))
  }

  /** `not_duplicate_tag`: a scan of the existing tags, stopping at the first
      whose name is exactly `tagText`; the comparison is case-sensitive. */
  method NotDuplicateTag(tagText: string, existingTags: seq<Fields>) returns (unique: bool)
    requires NamedUntilMatch(tagText, existingTags)
    ensures unique <==> forall tag :: tag in existingTags ==> "name" in tag && tag["name"] != Text(tagText)
  {
    for i := 0 to |existingTags|
      invariant NamedUntilMatch(tagText, existingTags[i..])
      invariant forall k :: 0 <= k < i ==> "name" in existingTags[k] && existingTags[k]["name"] != Text(tagText)
    {
      var tag := existingTags[i];
      assert existingTags[i..][1..] == existingTags[i + 1..];
      if Text(tagText) == tag["name"] {
        return false;
      }
    }
    return true;
  }
}
