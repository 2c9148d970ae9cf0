/**
  The application store: the reducer of the notes app, as a pure step from
  a state and an action to the next state. A step that the reducer would
  fault on (writing to the body of a selected post that does not exist)
  is an error result.
*/
module Store {
  import opened Text
  import opened Wrappers
  import opened Tildes
  import opened LineClassifier
  import opened BrainDump

  /**
    A post: its id, its body text and the label shown in the post list. The
    source calls the last field `label`, a reserved word in Dafny, so here it
    is `name`.
  */
  datatype Post = Post(id: string, body: string, name: string)

  /** The state: the posts in display order, the selected post id if any, and the no-disturb flag. */
  datatype State = State(posts: seq<Post>, selected: Option<string>, noDisturb: bool)

  datatype Action =
    | AddPost(name: string)
    | SelectPost(id: string)
    | DeletePost(id: string)
    | AddBrain(item: string)
    | UpdateBody(body: string)
    | NoDisturb(flag: Option<bool>)
    | Other(kind: string)

  /** The reducer indexed a post that is not there: `findIndex` gave -1. */
  datatype Fault = NoSelectedPost

  /** `posts.findIndex(e => e.id === selected)`: the first post with that id; none when nothing is selected. */
  function FindIndex(posts: seq<Post>, selected: Option<string>): (r: Option<nat>)
    ensures r.Some? ==> r.value < |posts| && Some(posts[r.value].id) == selected
    ensures r.Some? ==> forall j :: 0 <= j < r.value ==> Some(posts[j].id) != selected
    ensures r.None? ==> forall j :: 0 <= j < |posts| ==> Some(posts[j].id) != selected
  {
    if posts == [] then None
    else if Some(posts[0].id) == selected then Some(0)
    else match FindIndex(posts[1..], selected)
      case None => None
      case Some(k) => Some(k + 1)
  }

  /** `posts.filter(post => post.id !== id)`. */
  function Remove(posts: seq<Post>, id: string): (r: seq<Post>)
    ensures |r| <= |posts|
  {
    if posts == [] then []
    else (if posts[0].id == id then [] else [posts[0]]) + Remove(posts[1..], id)
  }

  /** The filter keeps exactly the posts whose id differs. */
  lemma {:induction false} RemoveSpec(posts: seq<Post>, id: string)
    ensures forall p <- Remove(posts, id) :: p in posts && p.id != id
    ensures forall p <- posts :: p.id != id ==> p in Remove(posts, id)
    decreases |posts|
  {
    if posts != [] {
      RemoveSpec(posts[1..], id);
      assert forall p <- posts[1..] :: p in posts;
      assert forall p <- posts :: p == posts[0] || p in posts[1..];
    }
  }

  predicate UniqueIds(posts: seq<Post>)
  {
    forall i, j :: 0 <= i < j < |posts| ==> posts[i].id != posts[j].id
  }

  function Ids(posts: seq<Post>): set<string>
  {
    set p <- posts :: p.id
  }

  /** The selection that DELETE_POST leaves: moved to the last remaining post if the selected one was deleted. */
  function SelectionAfterDelete(selected: Option<string>, id: string, rest: seq<Post>): Option<string>
  {
    if selected == Some(id) then (if |rest| > 0 then Some(rest[|rest| - 1].id) else None)
    else selected
  }

  /**
    `reducer(state, action)`. ADD_POST uses `newId` as the id `uniqid`
    would mint. ADD_BRAIN and UPDATE_BODY fault exactly when no post has
    the selected id; no other action faults.
  */
  function Apply(s: State, a: Action, newId: string): (r: Result<State, Fault>)
    ensures r.Err? <==> (a.AddBrain? || a.UpdateBody?) && FindIndex(s.posts, s.selected).None?
  {
    match a
    case AddPost(name) =>
      Ok(s.(posts := s.posts + [Post(newId, "", Trim(name))], selected := Some(newId)))
    case SelectPost(id) =>
      Ok(s.(selected := Some(id)))
    case DeletePost(id) =>
      var rest := Remove(s.posts, id);
      Ok(s.(posts := rest, selected := SelectionAfterDelete(s.selected, id, rest)))
    case AddBrain(item) =>
      (match FindIndex(s.posts, s.selected)
       case None => Err(NoSelectedPost)
       case Some(k) => Ok(WithBody(s, k, AppendTilde(s.posts[k].body, Trim(item)))))
    case UpdateBody(body) =>
      (match FindIndex(s.posts, s.selected)
       case None => Err(NoSelectedPost)
       case Some(k) => Ok(WithBody(s, k, body)))
    case NoDisturb(flag) =>
      Ok(s.(noDisturb := if flag == Some(true) then true else !s.noDisturb))
    case Other(_) =>
      Ok(s)
  }

  /** The state with post `k` given a new body. */
  function WithBody(s: State, k: nat, body: string): State
    requires k < |s.posts|
  {
    s.(posts := s.posts[k := s.posts[k].(body := body)])
  }

  /** The body of the selected post, if a post has the selected id. */
  function SelectedBody(s: State): Option<string>
  {
    match FindIndex(s.posts, s.selected)
    case None => None
    case Some(k) => Some(s.posts[k].body)
  }

  /**
    ADD_POST appends one post with an empty body and the trimmed label,
    keeps every earlier post, selects the new post and leaves the flag.
  */
  lemma AddPostAppends(s: State, name: string, newId: string)
    ensures var r := Apply(s, AddPost(name), newId);
      && r.Ok? && |r.value.posts| == |s.posts| + 1
      && r.value.posts[..|s.posts|] == s.posts
      && r.value.posts[|s.posts|] == Post(newId, "", Trim(name))
      && r.value.selected == Some(newId) && r.value.noDisturb == s.noDisturb
  {
    var r := Apply(s, AddPost(name), newId);
    assert r.value.posts[..|s.posts|] == s.posts;
  }

  /** With a fresh id, ADD_POST keeps the ids unique, and the new post is the one the selection finds. */
  lemma AddPostUnique(s: State, name: string, newId: string)
    requires UniqueIds(s.posts) && newId !in Ids(s.posts)
    ensures UniqueIds(Apply(s, AddPost(name), newId).value.posts)
    ensures FindIndex(Apply(s, AddPost(name), newId).value.posts, Some(newId)) == Some(|s.posts|)
  {
    var ps := Apply(s, AddPost(name), newId).value.posts;
    assert forall i :: 0 <= i < |s.posts| ==> ps[i] == s.posts[i] && s.posts[i].id in Ids(s.posts);
    FindIndexLast(s.posts, Post(newId, "", Trim(name)), newId);
  }

  /** A post added after posts that all have other ids is the one found. */
  lemma {:induction false} FindIndexLast(posts: seq<Post>, p: Post, id: string)
    requires p.id == id && forall j :: 0 <= j < |posts| ==> posts[j].id != id
    ensures FindIndex(posts + [p], Some(id)) == Some(|posts|)
    decreases |posts|
  {
    if posts != [] {
      assert (posts + [p])[1..] == posts[1..] + [p];
      FindIndexLast(posts[1..], p, id);
    }
  }

  /** The filter works post by post, so it keeps the surviving posts in their order. */
  lemma {:induction false} RemoveAppend(a: seq<Post>, b: seq<Post>, id: string)
    ensures Remove(a + b, id) == Remove(a, id) + Remove(b, id)
    decreases |a|
  {
    if a == [] {
      assert a + b == b;
    } else {
      assert (a + b)[1..] == a[1..] + b;
      RemoveAppend(a[1..], b, id);
    }
  }

  /** A filter that matches nothing keeps every post. */
  lemma {:induction false} RemoveAbsent(posts: seq<Post>, id: string)
    requires forall j :: 0 <= j < |posts| ==> posts[j].id != id
    ensures Remove(posts, id) == posts
    decreases |posts|
  {
    if posts != [] {
      RemoveAbsent(posts[1..], id);
    }
  }

  /** DELETE_POST of an id that only post `k` has takes out exactly that one post. */
  lemma RemoveOne(posts: seq<Post>, k: nat)
    requires k < |posts| && forall j :: 0 <= j < |posts| && j != k ==> posts[j].id != posts[k].id
    ensures Remove(posts, posts[k].id) == posts[..k] + posts[k + 1..]
  {
    SplitAround(posts, k);
    var p := posts[k];
    var before := posts[..k];
    var after := posts[k + 1..];
    assert forall j :: 0 <= j < |before| ==> before[j] == posts[j];
    assert forall j :: 0 <= j < |after| ==> after[j] == posts[k + 1 + j];
    RemoveOneAt(before, p, after);
  }

  /** A sequence is what comes before item `k`, the item, and what comes after it. */
  lemma SplitAround(posts: seq<Post>, k: nat)
    requires k < |posts|
    ensures posts == posts[..k] + [posts[k]] + posts[k + 1..]
  {
  }

  /** Taking out a post whose id no other post has. */
  lemma RemoveOneAt(before: seq<Post>, p: Post, after: seq<Post>)
    requires forall j :: 0 <= j < |before| ==> before[j].id != p.id
    requires forall j :: 0 <= j < |after| ==> after[j].id != p.id
    ensures Remove(before + [p] + after, p.id) == before + after
  {
    RemoveAbsent(before, p.id);
    RemoveAbsent(after, p.id);
    RemoveCut(before, p, after);
  }

  /** The filter by the id of a post drops that post and works on either side of it. */
  lemma RemoveCut(before: seq<Post>, p: Post, after: seq<Post>)
    ensures Remove(before + [p] + after, p.id) == Remove(before, p.id) + Remove(after, p.id)
  {
    var rest := [p] + after;
    assert before + [p] + after == before + rest;
    RemoveAppend(before, rest, p.id);
    assert rest[1..] == after;
  }

  /** DELETE_POST keeps the ids unique. */
  lemma {:induction false} RemoveUnique(posts: seq<Post>, id: string)
    requires UniqueIds(posts)
    ensures UniqueIds(Remove(posts, id))
    decreases |posts|
  {
    if posts != [] {
      var tail := posts[1..];
      assert UniqueIds(tail) by {
        assert forall i :: 0 <= i < |tail| ==> tail[i] == posts[i + 1];
      }
      RemoveUnique(tail, id);
      RemoveSpec(tail, id);
      var rest := Remove(tail, id);
      assert forall p <- rest :: p.id != posts[0].id by {
        forall p <- rest ensures p.id != posts[0].id {
          var i :| 0 <= i < |tail| && tail[i] == p;
          assert posts[i + 1] == p;
        }
      }
    }
  }

  /**
    DELETE_POST removes exactly the posts with the given id, keeps the
    others in order, and moves the selection to the last remaining post
    (or clears it) only when the selected post was the one deleted.
  */
  lemma DeletePostSpec(s: State, id: string, newId: string)
    ensures var r := Apply(s, DeletePost(id), newId);
      && r.Ok? && r.value.posts == Remove(s.posts, id) && r.value.noDisturb == s.noDisturb
      && (forall p <- r.value.posts :: p.id != id)
      && (forall p <- s.posts :: p.id != id ==> p in r.value.posts)
      && (s.selected != Some(id) ==> r.value.selected == s.selected)
      && (s.selected == Some(id) && r.value.posts == [] ==> r.value.selected == None)
      && (s.selected == Some(id) && r.value.posts != [] ==>
            r.value.selected == Some(r.value.posts[|r.value.posts| - 1].id))
  {
    RemoveSpec(s.posts, id);
  }

  /** DELETE_POST keeps the ids unique, and with unique ids removes exactly the one post. */
  lemma DeletePostUnique(s: State, id: string, newId: string)
    requires UniqueIds(s.posts)
    ensures UniqueIds(Apply(s, DeletePost(id), newId).value.posts)
    ensures forall k :: 0 <= k < |s.posts| && s.posts[k].id == id ==>
      Apply(s, DeletePost(id), newId).value.posts == s.posts[..k] + s.posts[k + 1..]
  {
    RemoveUnique(s.posts, id);
    forall k | 0 <= k < |s.posts| && s.posts[k].id == id
      ensures Apply(s, DeletePost(id), newId).value.posts == s.posts[..k] + s.posts[k + 1..]
    {
      assert forall j :: 0 <= j < |s.posts| && j != k ==> s.posts[j].id != s.posts[k].id;
      RemoveOne(s.posts, k);
    }
  }

  /** SELECT_POST changes only the selection, whether or not a post has that id. */
  lemma SelectPostSpec(s: State, id: string, newId: string)
    ensures Apply(s, SelectPost(id), newId) == Ok(State(s.posts, Some(id), s.noDisturb))
  {
  }

  /**
    A new body for the selected post: that post (the first with the
    selected id) has it, and the selection reads it back; every other
    post, the selection and the flag stay as they were.
  */
  lemma WithBodySpec(s: State, k: nat, body: string)
    requires FindIndex(s.posts, s.selected) == Some(k)
    ensures var t := WithBody(s, k, body);
      && |t.posts| == |s.posts| && t.posts[k] == s.posts[k].(body := body)
      && (forall j :: 0 <= j < |s.posts| && j != k ==> t.posts[j] == s.posts[j])
      && t.selected == s.selected && t.noDisturb == s.noDisturb
      && SelectedBody(t) == Some(body)
  {
    FindIndexSameIds(s.posts, WithBody(s, k, body).posts, s.selected);
  }

  /**
    UPDATE_BODY with a selected post that exists sets that post's body to
    the payload and changes nothing else; the selection reads it back.
  */
  lemma UpdateBodySpec(s: State, body: string, newId: string)
    requires FindIndex(s.posts, s.selected).Some?
    ensures Apply(s, UpdateBody(body), newId) == Ok(WithBody(s, FindIndex(s.posts, s.selected).value, body))
    ensures SelectedBody(Apply(s, UpdateBody(body), newId).value) == Some(body)
  {
    WithBodySpec(s, FindIndex(s.posts, s.selected).value, body);
  }

  /** Changing bodies or labels, but no ids, does not change which post the selection finds. */
  lemma {:induction false} FindIndexSameIds(a: seq<Post>, b: seq<Post>, selected: Option<string>)
    requires |a| == |b| && forall j :: 0 <= j < |a| ==> a[j].id == b[j].id
    ensures FindIndex(a, selected) == FindIndex(b, selected)
    decreases |a|
  {
    if a != [] {
      FindIndexSameIds(a[1..], b[1..], selected);
    }
  }

  /**
    ADD_BRAIN with a selected post that exists appends the trimmed label to
    that post's body as a tilde-line, as the sidebar's Enter key does, and
    changes nothing else; when the trimmed label is a good label and the
    body is appendable, the selected body's labels gain exactly that label.
  */
  lemma AddBrainSpec(s: State, item: string, newId: string)
    requires FindIndex(s.posts, s.selected).Some?
    ensures var k := FindIndex(s.posts, s.selected).value;
      Apply(s, AddBrain(item), newId) == Ok(WithBody(s, k, AppendTilde(s.posts[k].body, Trim(item))))
    ensures var k := FindIndex(s.posts, s.selected).value;
      Appendable(s.posts[k].body) && GoodLabel(Trim(item)) ==>
        Labels(Apply(s, AddBrain(item), newId).value.posts[k].body) == Labels(s.posts[k].body) + [Trim(item)]
  {
    var k := FindIndex(s.posts, s.selected).value;
    var before := s.posts[k].body;
    var body := AppendTilde(before, Trim(item));
    assert Apply(s, AddBrain(item), newId) == Ok(WithBody(s, k, body));
    assert WithBody(s, k, body).posts[k].body == body;
    if Appendable(before) && GoodLabel(Trim(item)) {
      AppendRoundTrip(before, Trim(item));
    }
  }

  /**
    A trimmed label made only of `[\S ]` characters (no whitespace other than
    the plain space: no tab, line break, U+00A0, U+3000, ...) is a good label
    as soon as it is non-empty.
  */
  lemma TrimmedLabel(item: string)
    requires Trim(item) != "" && AllLabel(Trim(item))
    ensures GoodLabel(Trim(item))
  {
    TrimEnds(item);
  }

  /** NO_DISTURB with a truthy payload switches the flag on; with any other payload, `false` included, it toggles. */
  lemma NoDisturbSpec(s: State, flag: Option<bool>, newId: string)
    ensures var r := Apply(s, NoDisturb(flag), newId);
      && r.Ok? && r.value.posts == s.posts && r.value.selected == s.selected
      && (flag == Some(true) ==> r.value.noDisturb)
      && (flag != Some(true) ==> r.value.noDisturb == !s.noDisturb)
  {
  }

  /** Two toggles cancel out. */
  lemma ToggleTwice(s: State, newId: string)
    ensures Apply(Apply(s, NoDisturb(None), newId).value, NoDisturb(None), newId) == Ok(s)
  {
  }

  /** An action the reducer does not know returns the state as it was. */
  lemma OtherUnchanged(s: State, kind: string, newId: string)
    ensures Apply(s, Other(kind), newId) == Ok(s)
  {
  }

  /**
    A new post followed by a brain dump: the new post is selected, its empty
    body takes the tilde-line, and its one label is the trimmed brain dump.
  */
  lemma AddPostThenBrain(s: State, name: string, item: string, newId: string, otherId: string)
    requires UniqueIds(s.posts) && newId !in Ids(s.posts)
    requires Trim(item) != "" && AllLabel(Trim(item))
    ensures var t := Apply(s, AddPost(name), newId).value;
      var u := Apply(t, AddBrain(item), otherId);
      && u.Ok? && SelectedBody(u.value) == Some("~ " + Trim(item) + "\n\n")
      && Labels(SelectedBody(u.value).value) == [Trim(item)]
  {
    var t := Apply(s, AddPost(name), newId).value;
    var k := |s.posts|;
    AddPostAppends(s, name, newId);
    AddPostUnique(s, name, newId);
    assert FindIndex(t.posts, t.selected) == Some(k);
    EmptyBody();
    var body := AppendTilde("", Trim(item));
    assert body == "~ " + Trim(item) + "\n\n";
    AddBrainSpec(t, item, otherId);
    WithBodySpec(t, k, body);
    TrimmedLabel(item);
    AppendRoundTrip("", Trim(item));
  }

  /** The body of a new post: blank, appendable, and without labels. */
  lemma EmptyBody()
    ensures Trim("") == "" && Appendable("") && Labels("") == []
  {
    TrimEmptyIffAllWs("");
    EmptyTildes();
    SplitByLines("");
  }
}
