/** The post tables of backend/post.c as values: which rows a filter selects, how rows move between
    post.recent and post.deleted, and what happens to the authors' post counters. */
module PostTables {
  import opened MachineInts

  /** A row of post.recent; columns that are only carried along are not listed. */
  datatype Post = Post(id: int, threadId: int, userId: int, userName: string, boardId: int,
                       digest: bool, marked: bool, water: bool, sticky: bool, title: string)

  /** A row of post.deleted: the post with the columns added when it was deleted. */
  datatype Deleted = Deleted(post: Post, junk: bool, bmVisible: bool)

  datatype ListType = ListNormal | ListThread | ListTopic | ListTrash | ListJunk | ListOther

  /** `post_filter_t`; the ILIKE match on the title is a parameter. */
  datatype Filter = Filter(kind: ListType, bid: int, digest: bool, marked: bool, water: bool, uid: int,
                           keyword: bool, titleLike: string -> bool, min: int, max: int, tid: int)

  predicate IsDeleted(kind: ListType) {
    kind.ListTrash? || kind.ListJunk?
  }

  /** `build_post_filter` on a row; `bmVisible` matters only to rows of post.deleted. */
  predicate Matches(f: Filter, p: Post, bmVisible: bool) {
    && (f.bid != 0 && IsDeleted(f.kind) ==> p.boardId == f.bid)
    && (f.digest ==> p.digest)
    && (f.marked ==> p.marked)
    && (f.water ==> p.water)
    && (f.uid != 0 ==> p.userId == f.uid)
    && (f.keyword ==> f.titleLike(p.title))
    && (f.kind.ListTopic? ==> p.id == p.threadId)
    && (if f.kind.ListThread? then
          && (f.min != 0 && f.tid != 0 ==>
                (p.threadId == f.tid && p.id >= f.min) || p.threadId > f.tid)
          && (f.max != 0 && f.tid != 0 ==>
                (p.threadId == f.tid && p.id <= f.max) || p.threadId < f.tid)
        else
          && (f.min != 0 ==> p.id >= f.min)
          && (f.max != 0 ==> p.id <= f.max)
          && (f.tid != 0 ==> p.threadId == f.tid))
    && (f.kind.ListTrash? ==> bmVisible)
    && (f.kind.ListJunk? ==> !bmVisible)
  }

  // ----- moving rows

  function Select<T>(rows: seq<T>, chosen: T -> bool): seq<T> {
    if rows == [] then []
    else if chosen(rows[0]) then [rows[0]] + Select(rows[1..], chosen)
    else Select(rows[1..], chosen)
  }

  function Reject<T>(rows: seq<T>, chosen: T -> bool): seq<T> {
    if rows == [] then []
    else if chosen(rows[0]) then Reject(rows[1..], chosen)
    else [rows[0]] + Reject(rows[1..], chosen)
  }

  function Map<S, T>(rows: seq<S>, f: S -> T): (r: seq<T>)
    ensures |r| == |rows|
  {
    if rows == [] then [] else [f(rows[0])] + Map(rows[1..], f)
  }

  datatype DeleteReq = DeleteReq(filter: Filter, junk: bool, bmVisible: bool, force: bool)

  datatype NewReq = NewReq(userId: int, userName: string, boardId: int, threadId: int,
                           hideUserId: bool, anonymous: bool, marked: bool, title: string)

  /** The tables, the counters `numposts`, the boards with their junk flag, the invalidity counters of
      the boards' record files, and the id the sequence will give next. */
  datatype Tables = Tables(recent: seq<Post>, deleted: seq<Deleted>, numposts: map<string, u32>,
                           boards: map<int, bool>, invalid: map<int, int>, nextId: int)

  function Doomed(req: DeleteReq): Post -> bool {
    (p: Post) => Matches(req.filter, p, false) && (req.force || !p.marked) && !p.sticky
  }

  function ToDeleted(req: DeleteReq, decrease: bool): Post -> Deleted {
    (p: Post) => Deleted(p, decrease && (p.water || req.junk), req.bmVisible)
  }

  function Reborn(): Deleted -> Post {
    (d: Deleted) => d.post.(sticky := false)
  }

  function InFilter(f: Filter): Deleted -> bool {
    (d: Deleted) => Matches(f, d.post, d.bmVisible)
  }

  // ----- user counters

  /** A deleted row that counts against its author. */
  predicate Counts(d: Deleted) {
    d.post.userId != 0 && d.junk
  }

  /** How many of the rows count against user `u`. */
  function Counting(rows: seq<Deleted>, u: string): nat {
    if rows == [] then 0 else CountsFor(rows[0], u) + Counting(rows[1..], u)
  }

  function CountsFor(d: Deleted, u: string): nat {
    if Counts(d) && d.post.userName == u then 1 else 0
  }

  /** `adjust_user_post_count`, in unsigned arithmetic */
  function Adjust(numposts: map<string, u32>, u: string, delta: int): map<string, u32>
    requires u in numposts
  {
    numposts[u := ToU32(numposts[u] + delta)]
  }

  function Step(n: int, up: bool, k: nat): u32 {
    ToU32(if up then n + k else n - k)
  }

  /** The counters after one adjustment for each row that counts. */
  function AdjustAll(numposts: map<string, u32>, rows: seq<Deleted>, up: bool): map<string, u32> {
    map u | u in numposts :: Step(numposts[u], up, Counting(rows, u))
  }

  /** `post_record_invalidity_change` */
  function ChangedBy(invalid: map<int, int>, bid: int, delta: int): map<int, int> {
    if bid > 0 then invalid[bid := (if bid in invalid then invalid[bid] else 0) + delta] else invalid
  }

  function Invalidate(invalid: map<int, int>, bid: int): map<int, int> {
    ChangedBy(invalid, bid, 1)
  }

  // ----- the commands

  function NewRow(t: Tables, req: NewReq): Post {
    Post(t.nextId, if req.threadId == 0 then t.nextId else req.threadId,
         if req.hideUserId || req.anonymous then 0 else req.userId, req.userName, req.boardId,
         false, req.marked, false, false, req.title)
  }

  /** The new post counts for its author. */
  predicate Counted(t: Tables, req: NewReq) {
    req.boardId in t.boards && !t.boards[req.boardId] && !req.hideUserId && !req.anonymous
  }

  function New(t: Tables, req: NewReq): Tables
    requires Counted(t, req) ==> req.userName in t.numposts
  {
    t.(recent := t.recent + [NewRow(t, req)], nextId := t.nextId + 1,
       invalid := Invalidate(t.invalid, req.boardId),
       numposts := if Counted(t, req) then Adjust(t.numposts, req.userName, 1) else t.numposts)
  }

  /** The board named in the request is unknown. */
  predicate Refused(t: Tables, req: DeleteReq) {
    req.filter.bid != 0 && req.filter.bid !in t.boards
  }

  function Moved(t: Tables, req: DeleteReq): seq<Deleted>
    requires !Refused(t, req)
  {
    Map(Select(t.recent, Doomed(req)), ToDeleted(req, !(req.filter.bid != 0 && t.boards[req.filter.bid])))
  }

  function Delete(t: Tables, req: DeleteReq): Tables {
    if Refused(t, req) then t
    else
      var moved := Moved(t, req);
      t.(recent := Reject(t.recent, Doomed(req)), deleted := t.deleted + moved,
         numposts := AdjustAll(t.numposts, moved, false),
         invalid := if moved != [] then Invalidate(t.invalid, req.filter.bid) else t.invalid)
  }

  function Undelete(t: Tables, f: Filter): Tables {
    var back := Select(t.deleted, InFilter(f));
    t.(recent := t.recent + Map(back, Reborn()), deleted := Reject(t.deleted, InFilter(f)),
       numposts := AdjustAll(t.numposts, back, true),
       invalid := if back != [] then Invalidate(t.invalid, f.bid) else t.invalid)
  }
}
