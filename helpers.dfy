/**
 * The application's view of the compiled table (`src/app/helpers.rs`):
 * the post list, the lookup by URL path, and the left-click test that
 * decides whether a link is followed client-side.
 */
module Helpers {
  import opened Wrappers
  import opened Decimal
  import opened Calendar
  import opened Posts
  import opened Table
  import opened StableSort

  /** What the list and the post page show about a post; the HTML stays behind. */
  datatype PostMetadata = PostMetadata(id: string, date: string, title: string)

  /** `get_post_metadata_list`: every row of `POSTS`, in table order, without its content. */
  function GetPostMetadataList(table: seq<Row>): (list: seq<PostMetadata>)
    ensures |list| == |table|
    ensures forall i :: 0 <= i < |table| ==>
      list[i].id == table[i].id && list[i].date == table[i].date && list[i].title == table[i].title
  {
    if table == [] then []
    else [PostMetadata(table[0].id, table[0].date, table[0].title)] + GetPostMetadataList(table[1..])
  }

  /**
   * `get_post`: the first row whose id string equals `path`, as its
   * metadata and its content.
   */
  function GetPost(table: seq<Row>, path: string): (r: Option<(PostMetadata, string)>)
    ensures r.Some? <==> exists i :: 0 <= i < |table| && table[i].id == path
    ensures r.Some? ==> exists i :: (0 <= i < |table| && table[i].id == path
      && (forall j :: 0 <= j < i ==> table[j].id != path)
      && r.value == (PostMetadata(table[i].id, table[i].date, table[i].title), table[i].content))
  {
    if table == [] then None
    else if table[0].id == path then
      Some((PostMetadata(table[0].id, table[0].date, table[0].title), table[0].content))
    else
      var r := GetPost(table[1..], path);
      assert forall i :: 1 <= i < |table| ==> table[i] == table[1..][i - 1];
      r
  }

  /** The modifier keys of a mouse event. */
  datatype Modifier = Meta | Ctrl | Shift | Alt

  /** The parts of a DOM `MouseEvent` the link handler reads. */
  datatype MouseEvent = MouseEvent(button: int, metaKey: bool, ctrlKey: bool, shiftKey: bool, altKey: bool)

  function PressedModifiers(ev: MouseEvent): set<Modifier> {
    (if ev.metaKey then {Meta} else {}) + (if ev.ctrlKey then {Ctrl} else {})
    + (if ev.shiftKey then {Shift} else {}) + (if ev.altKey then {Alt} else {})
  }

  /** `is_left_click`: the main button, with no modifier held. */
  function IsLeftClick(ev: MouseEvent): (r: bool)
    ensures r <==> ev.button == 0 && PressedModifiers(ev) == {}
  {
    ev.button == 0 && !ev.metaKey && !ev.ctrlKey && !ev.shiftKey && !ev.altKey
  }

  /** The post a lookup by id `n` should find: the first in the list with that id. */
  function FirstWithId(posts: seq<Post>, n: nat): Option<(PostMetadata, string)> {
    var w := WithKey(posts, PostId, n);
    if w == [] then None
    else Some((PostMetadata(ToDecimal(w[0].id), FormatDmy(w[0].date), w[0].title), w[0].html))
  }

  lemma {:induction false} GetPostById(posts: seq<Post>, n: nat)
    ensures GetPost(TableRows(posts), ToDecimal(n)) == FirstWithId(posts, n)
    decreases |posts|
  {
    if posts != [] {
      var p := posts[0];
      assert posts == [p] + posts[1..];
      WithKeyAppend([p], posts[1..], PostId, n);
      assert WithKey([p], PostId, n) == (if p.id == n then [p] else []) by {
        assert [p][..0] == [];
      }
      ToDecimalInjective(p.id, n);
      GetPostById(posts[1..], n);
    }
  }

  /**
   * End to end: once the collected posts are sorted, written out and
   * compiled in, looking up the decimal id `n` finds the post with that id
   * that came first in directory order, and finds nothing when no file
   * carried that id.
   */
  lemma LookupFindsFirstInDirectoryOrder(collected: seq<Post>, n: nat)
    requires forall p :: p in collected ==> Embeddable(p)
    ensures var posts := SortByKey(collected, PostId);
      ReadTable(WriteOutList(posts)) == Some(TableRows(posts))
      && GetPost(TableRows(posts), ToDecimal(n)) == FirstWithId(collected, n)
  {
    var posts := SortByKey(collected, PostId);
    SortByKeyPermutes(collected, PostId);
    forall i | 0 <= i < |posts| ensures Embeddable(posts[i]) {
      assert posts[i] in multiset(posts);
    }
    ReadWrittenTable(posts);
    GetPostById(posts, n);
    SortByKeyStable(collected, PostId, n);
  }

  /**
   * Paths are compared as strings: a path with a leading zero, such as
   * `01`, never matches, because ids are written without one.
   */
  lemma LeadingZeroPathMisses(posts: seq<Post>, path: string)
    requires |path| > 1 && path[0] == '0'
    ensures GetPost(TableRows(posts), path) == None
  {
    var table := TableRows(posts);
    forall i | 0 <= i < |table| ensures table[i].id != path {
      TableRowAt(posts, i);
    }
  }

  lemma {:induction false} TableRowAt(posts: seq<Post>, i: nat)
    requires i < |posts|
    ensures TableRows(posts)[i] == RowOf(posts[i])
    decreases i
  {
    if i > 0 {
      var j := i - 1;
      TableRowAt(posts[1..], j);
      assert posts[1..][j] == posts[j + 1];
      assert TableRows(posts)[j + 1] == TableRows(posts[1..])[j];
    }
  }
}
