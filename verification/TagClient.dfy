/** The tag functions of pkg/tfc_api/api_client.go over the tag lists that
    Terraform Cloud keeps per workspace. */
module TagClient {
  import opened Strings

  /** Tags of a workspace in listing order. */
  type Tags = seq<string>

  function WithTag(tags: Tags, tag: string): (r: Tags)
    ensures forall t :: t in r <==> t in tags || t == tag
  {
    if tag in tags then tags else tags + [tag]
  }

  /** The tags a query lists: those that contain it anywhere. */
  function Matching(tags: Tags, query: string): (r: Tags)
    ensures forall t :: t in r <==> t in tags && Includes(t, query)
  {
    if tags == [] then []
    else
      var n := |tags| - 1;
      if Includes(tags[n], query) then Matching(tags[..n], query) + [tags[n]] else Matching(tags[..n], query)
  }

  function Without(tags: Tags, names: seq<string>): (r: Tags)
    ensures forall t :: t in r <==> t in tags && t !in names
  {
    if tags == [] then []
    else (if tags[0] in names then [] else [tags[0]]) + Without(tags[1..], names)
  }

  lemma {:induction false} WithoutNothing(tags: Tags, names: seq<string>)
    requires forall t :: t in tags ==> t !in names
    ensures Without(tags, names) == tags
  {
    if tags != [] {
      WithoutNothing(tags[1..], names);
    }
  }

  /** The tags after RemoveTagsByQuery. */
  function QueryRemoved(tags: Tags, query: string, listed: bool, reply: Reply): Tags {
    if !listed || reply.Failed? then tags else Without(tags, Matching(tags, query))
  }

  /** RemoveTagsByQuery reports success; with nothing to remove it makes no call. */
  predicate QueryRemovalOk(tags: Tags, query: string, listed: bool, reply: Reply) {
    listed && (Matching(tags, query) == [] || reply.Seen?)
  }

  class TFCClient {
    var tags: map<string, Tags>

    function TagsOf(workspace: string): Tags
      reads this
    {
      Listed(tags, workspace)
    }

    method AddTags(workspace: string, prefix: string, value: string, reply: Reply) returns (ok: bool)
      modifies this
      ensures tags == if reply.Failed? then old(tags)
                      else old(tags)[workspace := WithTag(old(TagsOf(workspace)), prefix + "-" + value)]
      ensures ok <==> reply.Seen?
    {
      var lockTag := prefix + "-" + value;
      if reply != Failed && lockTag !in TagsOf(workspace) {
        tags := tags[workspace := TagsOf(workspace) + [lockTag]];
      } else if reply != Failed {
        tags := tags[workspace := TagsOf(workspace)];
      }
      ok := reply == Seen;
    }

    method GetTagsByQuery(workspace: string, query: string, listed: bool) returns (r: Option<Tags>)
      ensures r == if listed then Some(Matching(TagsOf(workspace), query)) else None
    {
      if !listed {
        return None;
      }
      var all := TagsOf(workspace);
      var names := [];
      for i := 0 to |all|
        invariant names == Matching(all[..i], query)
      {
        assert all[..i + 1][..i] == all[..i];
        if Includes(all[i], query) {
          names := names + [all[i]];
        }
      }
      assert all[..|all|] == all;
      return Some(names);
    }

    method RemoveTagsByQuery(workspace: string, query: string, listed: bool, reply: Reply) returns (ok: bool)
      modifies this
      ensures tags == if !listed || Matching(old(TagsOf(workspace)), query) == [] || reply.Failed? then old(tags)
                      else old(tags)[workspace := QueryRemoved(old(TagsOf(workspace)), query, listed, reply)]
      ensures ok <==> QueryRemovalOk(old(TagsOf(workspace)), query, listed, reply)
    {
      var taglist := GetTagsByQuery(workspace, query, listed);
      if taglist.None? {
        return false;
      }
      if taglist.value == [] {
        return true;
      }
      ok := RemoveTags(workspace, taglist.value, reply);
    }

    method RemoveTagsByName(workspace: string, names: seq<string>, reply: Reply) returns (ok: bool)
      modifies this
      ensures tags == if names == [] || reply.Failed? then old(tags)
                      else old(tags)[workspace := Without(old(TagsOf(workspace)), names)]
      ensures ok <==> names == [] || reply.Seen?
    {
      if names == [] {
        return true;
      }
      ok := RemoveTags(workspace, names, reply);
    }

    /** The removal call itself. */
    method RemoveTags(workspace: string, names: seq<string>, reply: Reply) returns (ok: bool)
      modifies this
      ensures tags == if reply.Failed? then old(tags) else
            old(tags)[workspace := Without(old(TagsOf(workspace)), names)]
      ensures ok <==> reply.Seen?
    {
      if reply != Failed {
        tags := tags[workspace := Without(TagsOf(workspace), names)];
      }
      ok := reply == Seen;
    }
  }

  function Listed(tags: map<string, Tags>, workspace: string): Tags {
    if workspace in tags then tags[workspace] else []
  }
}
