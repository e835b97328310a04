/** The adaptive chunked push of observations (`crates/iac-agent/src/remote.rs`). The server is any function of the
    number of the POST and its chunk, so that its answers are arbitrary. */
module Push {
  import opened Common

  const OBSERVATION_PUSH_CHUNK: nat := 500
  const U32_MAX: nat := 0xFFFF_FFFF

  /** A 2xx status, 413, or anything else: another status, or a request that could not be sent. */
  datatype Answer = Accepted | TooLarge | Failed(reason: string)

  datatype Post<T> = Post(chunk: seq<T>, answer: Answer)

  // ---- chunks ----

  ghost predicate NoneEmpty<T>(chunks: seq<seq<T>>) {
    forall i | 0 <= i < |chunks| :: chunks[i] != []
  }

  ghost function Flatten<T>(chunks: seq<seq<T>>): seq<T> {
    if chunks == [] then [] else chunks[0] + Flatten(chunks[1..])
  }

  /** `slice::chunks`: pieces of `size`, the last one possibly shorter. */
  function Chunks<T>(items: seq<T>, size: nat): (chunks: seq<seq<T>>)
    requires size > 0
    ensures NoneEmpty(chunks)
    ensures Flatten(chunks) == items
    ensures forall i | 0 <= i < |chunks| :: |chunks[i]| <= size
    ensures forall i | 0 <= i < |chunks| - 1 :: |chunks[i]| == size
    decreases |items|
  {
    if items == [] then []
    else if |items| <= size then [items]
    else
      var rest := Chunks(items[size..], size);
      assert ([items[..size]] + rest)[1..] == rest;
      [items[..size]] + rest
  }

  lemma {:induction false} ChunkCount<T>(items: seq<T>)
    ensures |Chunks(items, 500)| == (|items| + 499) / 500
    decreases |items|
  {
    if |items| > 500 {
      ChunkCount(items[500..]);
    }
  }

  // ---- the run, as a function of the server ----

  /** The chunks still to send once `answer` came for the first of them. */
  ghost function Next<T>(chunks: seq<seq<T>>, answer: Answer): seq<seq<T>>
    requires chunks != [] && !answer.Failed?
  {
    var chunk := chunks[0];
    if answer.TooLarge? && |chunk| > 1 then [chunk[..|chunk| / 2], chunk[|chunk| / 2..]] + chunks[1..]
    else chunks[1..]
  }

  /** A chunk that is too large gives way to its two halves, which differ by at most one item. */
  lemma HalvesInOrder<T>(chunks: seq<seq<T>>)
    requires chunks != [] && |chunks[0]| > 1
    ensures
      var next := Next(chunks, TooLarge);
      && |next| == |chunks| + 1 && next[2..] == chunks[1..]
      && next[0] + next[1] == chunks[0] && |next[0]| <= |next[1]| <= |next[0]| + 1
  {
  }

  /** Any other chunk that is settled gives way to the rest. */
  lemma SettledIsPopped<T>(chunks: seq<seq<T>>, answer: Answer)
    requires chunks != [] && !answer.Failed? && (answer.Accepted? || |chunks[0]| <= 1)
    ensures Next(chunks, answer) == chunks[1..]
  {
  }

  /** Most POSTs that the chunks can still cost: one per node of the binary tree over each chunk's items. */
  ghost function Work<T>(chunks: seq<seq<T>>): nat
    requires NoneEmpty(chunks)
  {
    if chunks == [] then 0 else 2 * |chunks[0]| - 1 + Work(chunks[1..])
  }

  lemma NextIsLessWork<T>(chunks: seq<seq<T>>, answer: Answer)
    requires chunks != [] && NoneEmpty(chunks) && !answer.Failed?
    ensures NoneEmpty(Next(chunks, answer)) && Work(Next(chunks, answer)) < Work(chunks)
    ensures answer.TooLarge? ==> Work(Next(chunks, answer)) == Work(chunks) - 1
  {
    var chunk := chunks[0];
    if answer.TooLarge? && |chunk| > 1 {
      var left, right := chunk[..|chunk| / 2], chunk[|chunk| / 2..];
      var next := [left, right] + chunks[1..];
      assert next[1..] == [right] + chunks[1..] && next[1..][1..] == chunks[1..];
    }
  }

  /** What was posted, and the chunks left when a failure ended the run. */
  datatype Run<T> = Run(posts: seq<Post<T>>, left: seq<seq<T>>)

  ghost function Drain<T>(server: (nat, seq<T>) -> Answer, n: nat, chunks: seq<seq<T>>): Run<T>
    requires NoneEmpty(chunks)
    decreases Work(chunks)
  {
    if chunks == [] then Run([], [])
    else
      var answer := server(n, chunks[0]);
      if answer.Failed? then Run([Post(chunks[0], answer)], chunks)
      else
        NextIsLessWork(chunks, answer);
        var rest := Drain(server, n + 1, Next(chunks, answer));
        Run([Post(chunks[0], answer)] + rest.posts, rest.left)
  }

  // ---- what became of the items ----

  datatype Fate<T> = Fate(item: T, delivered: bool)

  ghost function FateOf<T>(post: Post<T>): (fates: seq<Fate<T>>) {
    if post.answer.Accepted? then seq(|post.chunk|, i requires 0 <= i < |post.chunk| => Fate(post.chunk[i], true))
    else if post.answer.TooLarge? && |post.chunk| == 1 then [Fate(post.chunk[0], false)]
    else []
  }

  ghost function Fates<T>(posts: seq<Post<T>>): seq<Fate<T>> {
    if posts == [] then [] else FateOf(posts[0]) + Fates(posts[1..])
  }

  ghost function ItemsOf<T>(fates: seq<Fate<T>>): (items: seq<T>)
    ensures |items| == |fates|
  {
    seq(|fates|, i requires 0 <= i < |fates| => fates[i].item)
  }

  ghost function IfDelivered<T>(fate: Fate<T>): seq<T> {
    if fate.delivered then [fate.item] else []
  }

  ghost function Delivered<T>(fates: seq<Fate<T>>): seq<T> {
    if fates == [] then []
    else IfDelivered(fates[0]) + Delivered(fates[1..])
  }

  lemma ItemsOfSum<T>(a: seq<Fate<T>>, b: seq<Fate<T>>)
    ensures ItemsOf(a + b) == ItemsOf(a) + ItemsOf(b)
  {
  }

  lemma {:induction false} DeliveredSum<T>(a: seq<Fate<T>>, b: seq<Fate<T>>)
    ensures Delivered(a + b) == Delivered(a) + Delivered(b)
  {
    if a == [] {
      assert a + b == b;
    } else {
      DeliveredSum(a[1..], b);
      assert (a + b)[1..] == a[1..] + b && (a + b)[0] == a[0];
      AppendAssoc(IfDelivered(a[0]), Delivered(a[1..]), Delivered(b));
    }
  }

  lemma SplitConserves<T>(chunk: seq<T>, mid: nat, rest: seq<seq<T>>)
    requires mid <= |chunk|
    ensures Flatten([chunk[..mid], chunk[mid..]] + rest) == chunk + Flatten(rest)
  {
    var left, right := chunk[..mid], chunk[mid..];
    var next := [left, right] + rest;
    assert next[1..] == [right] + rest && next[1..][1..] == rest;
    assert left + (right + Flatten(rest)) == (left + right) + Flatten(rest);
    assert left + right == chunk;
  }

  lemma SettledItems<T>(post: Post<T>)
    requires post.chunk != [] && !post.answer.Failed?
    ensures ItemsOf(FateOf(post)) == if post.answer.TooLarge? && |post.chunk| > 1 then [] else post.chunk
  {
  }

  /** One POST that did not fail settles its items, or splits them. */
  lemma StepConserves<T>(chunks: seq<seq<T>>, answer: Answer)
    requires chunks != [] && NoneEmpty(chunks) && !answer.Failed?
    ensures ItemsOf(FateOf(Post(chunks[0], answer))) + Flatten(Next(chunks, answer)) == Flatten(chunks)
  {
    SettledItems(Post(chunks[0], answer));
    if answer.TooLarge? && |chunks[0]| > 1 {
      SplitConserves(chunks[0], |chunks[0]| / 2, chunks[1..]);
    }
  }

  ghost function Settled<T>(posts: seq<Post<T>>): seq<T> {
    ItemsOf(Fates(posts))
  }

  lemma SettledFirst<T>(post: Post<T>, rest: seq<Post<T>>)
    ensures Settled([post] + rest) == ItemsOf(FateOf(post)) + Settled(rest)
  {
    assert ([post] + rest)[1..] == rest;
    ItemsOfSum(FateOf(post), Fates(rest));
  }

  lemma AppendAssoc<T>(a: seq<T>, b: seq<T>, c: seq<T>)
    ensures (a + b) + c == a + (b + c)
  {
  }

  /** Settled items followed by the chunks left always spell the items there were, in order. */
  lemma {:induction false} NothingLostOrReordered<T>(server: (nat, seq<T>) -> Answer, n: nat, chunks: seq<seq<T>>)
    requires NoneEmpty(chunks)
    ensures
      var run := Drain(server, n, chunks);
      Settled(run.posts) + Flatten(run.left) == Flatten(chunks)
    decreases Work(chunks)
  {
    if chunks != [] {
      var answer := server(n, chunks[0]);
      var post := Post(chunks[0], answer);
      if answer.Failed? {
        assert [post] + [] == [post];
        SettledFirst(post, []);
      } else {
        NextIsLessWork(chunks, answer);
        NothingLostOrReordered(server, n + 1, Next(chunks, answer));
        StepConserves(chunks, answer);
        var rest := Drain(server, n + 1, Next(chunks, answer));
        SettledFirst(post, rest.posts);
        AppendAssoc(ItemsOf(FateOf(post)), Settled(rest.posts), Flatten(rest.left));
      }
    }
  }

  /** The server was asked once per POST, in order; a failure can only be the last answer, and then it is for the
      chunk left on top. */
  ghost predicate Answered<T>(server: (nat, seq<T>) -> Answer, n: nat, run: Run<T>) {
    && (forall k | 0 <= k < |run.posts| :: run.posts[k].answer == server(n + k, run.posts[k].chunk))
    && (forall k | 0 <= k < |run.posts| :: run.posts[k].answer.Failed? <==> run.left != [] && k == |run.posts| - 1)
    && (run.left != [] ==> run.posts != [] && run.left[0] == run.posts[|run.posts| - 1].chunk)
  }

  lemma OneMorePost<T>(server: (nat, seq<T>) -> Answer, n: nat, chunk: seq<T>, rest: Run<T>)
    requires Answered(server, n + 1, rest) && !server(n, chunk).Failed?
    ensures Answered(server, n, Run([Post(chunk, server(n, chunk))] + rest.posts, rest.left))
  {
    var posts := [Post(chunk, server(n, chunk))] + rest.posts;
    forall k | 0 <= k < |posts|
      ensures posts[k].answer == server(n + k, posts[k].chunk)
      ensures posts[k].answer.Failed? <==> rest.left != [] && k == |posts| - 1
    {
      if k > 0 {
        assert posts[k] == rest.posts[k - 1];
      }
    }
  }

  lemma {:induction false} EveryPostIsAnswered<T>(server: (nat, seq<T>) -> Answer, n: nat, chunks: seq<seq<T>>)
    requires NoneEmpty(chunks)
    ensures Answered(server, n, Drain(server, n, chunks))
    decreases Work(chunks)
  {
    if chunks != [] {
      var answer := server(n, chunks[0]);
      if !answer.Failed? {
        NextIsLessWork(chunks, answer);
        EveryPostIsAnswered(server, n + 1, Next(chunks, answer));
        OneMorePost(server, n, chunks[0], Drain(server, n + 1, Next(chunks, answer)));
      }
    }
  }

  /** Never more POSTs than `Work`; exactly that many when every answer is 413. */
  lemma {:induction false} PostsAreBounded<T(!new)>(server: (nat, seq<T>) -> Answer, n: nat, chunks: seq<seq<T>>)
    requires NoneEmpty(chunks)
    ensures |Drain(server, n, chunks).posts| <= Work(chunks)
    ensures (forall k: nat, c :: server(k, c).TooLarge?) ==> |Drain(server, n, chunks).posts| == Work(chunks)
    decreases Work(chunks)
  {
    if chunks != [] && !server(n, chunks[0]).Failed? {
      NextIsLessWork(chunks, server(n, chunks[0]));
      PostsAreBounded(server, n + 1, Next(chunks, server(n, chunks[0])));
    }
  }

  /** Twice the items, less one POST for each initial chunk. */
  lemma {:induction false} WorkIsTwiceTheItems<T>(chunks: seq<seq<T>>)
    requires NoneEmpty(chunks)
    ensures Work(chunks) == 2 * |Flatten(chunks)| - |chunks|
  {
    if chunks != [] {
      WorkIsTwiceTheItems(chunks[1..]);
    }
  }

  /** An undelivered item was posted alone and refused as too large. */
  lemma {:induction false} DroppedOnlyAlone<T>(posts: seq<Post<T>>, i: nat) returns (k: nat)
    requires i < |Fates(posts)| && !Fates(posts)[i].delivered
    ensures k < |posts| && posts[k] == Post([Fates(posts)[i].item], TooLarge)
  {
    var first := FateOf(posts[0]);
    if i < |first| {
      assert posts[0].chunk == [posts[0].chunk[0]];
      k := 0;
    } else {
      k := DroppedOnlyAlone(posts[1..], i - |first|);
      k := k + 1;
    }
  }

  /** A delivered item was in a chunk that was accepted. */
  lemma {:induction false} DeliveredOnlyAccepted<T>(posts: seq<Post<T>>, i: nat) returns (k: nat)
    requires i < |Fates(posts)| && Fates(posts)[i].delivered
    ensures k < |posts| && posts[k].answer.Accepted? && Fates(posts)[i].item in posts[k].chunk
  {
    var first := FateOf(posts[0]);
    if i < |first| {
      k := 0;
    } else {
      k := DeliveredOnlyAccepted(posts[1..], i - |first|);
      k := k + 1;
    }
  }

  // ---- a server with a size limit ----

  /** Accepts what fits, answers 413 to the rest; whatever fits as a whole fits item by item. */
  ghost predicate HasSizeLimit<T(!new)>(server: (nat, seq<T>) -> Answer, fits: seq<T> -> bool) {
    && (forall n: nat, chunk :: server(n, chunk) == if fits(chunk) then Accepted else TooLarge)
    && (forall chunk, item | item in chunk && fits(chunk) :: fits([item]))
  }

  ghost function FittingAlone<T>(items: seq<T>, fits: seq<T> -> bool): seq<T> {
    if items == [] then []
    else (if fits([items[0]]) then [items[0]] else []) + FittingAlone(items[1..], fits)
  }

  lemma {:induction false} DeliveredAre<T>(fates: seq<Fate<T>>, fits: seq<T> -> bool)
    requires forall i | 0 <= i < |fates| :: fates[i].delivered <==> fits([fates[i].item])
    ensures Delivered(fates) == FittingAlone(ItemsOf(fates), fits)
  {
    if fates != [] {
      DeliveredAre(fates[1..], fits);
      assert ItemsOf(fates)[1..] == ItemsOf(fates[1..]);
    }
  }

  /** Against a size limit the push never fails, and delivers exactly the items that fit alone, in order. */
  lemma EverythingThatFitsIsDelivered<T(!new)>(server: (nat, seq<T>) -> Answer, fits: seq<T> -> bool,
                                               chunks: seq<seq<T>>)
    requires NoneEmpty(chunks) && HasSizeLimit(server, fits)
    ensures
      var run := Drain(server, 0, chunks);
      run.left == [] && Delivered(Fates(run.posts)) == FittingAlone(Flatten(chunks), fits)
  {
    var run := Drain(server, 0, chunks);
    var fates := Fates(run.posts);
    EveryPostIsAnswered(server, 0, chunks);
    NothingLostOrReordered(server, 0, chunks);
    assert forall k | 0 <= k < |run.posts| :: !run.posts[k].answer.Failed?;
    assert ItemsOf(fates) == Flatten(chunks);
    forall i | 0 <= i < |fates|
      ensures fates[i].delivered <==> fits([fates[i].item])
    {
      if fates[i].delivered {
        var k := DeliveredOnlyAccepted(run.posts, i);
        assert fits(run.posts[k].chunk);
      } else {
        var k := DroppedOnlyAlone(run.posts, i);
        assert server(k, run.posts[k].chunk) == TooLarge;
      }
    }
    DeliveredAre(fates, fits);
  }

  // ---- the push ----

  function Reversed<T>(s: seq<T>): (r: seq<T>)
    ensures |r| == |s| && forall i | 0 <= i < |s| :: r[i] == s[|s| - 1 - i]
  {
    seq(|s|, i requires 0 <= i < |s| => s[|s| - 1 - i])
  }

  function SaturatingAdd(a: nat, b: nat): nat {
    Min(a + Min(b, U32_MAX), U32_MAX)
  }

  /** Saturating along the way is saturating at the end. */
  lemma SaturatingSum(a: nat, b: nat)
    ensures SaturatingAdd(Min(a, U32_MAX), b) == Min(a + b, U32_MAX)
  {
  }

  /** The stack holds the chunks left, the next one on top. `server` gives the answers; `posts` is the record of what
      was sent and answered. */
  method PushObservations<T(!new)>(items: seq<T>, server: (nat, seq<T>) -> Answer)
    returns (r: Result<nat, string>, posts: seq<Post<T>>)
    ensures Answered(server, 0, Drain(server, 0, Chunks(items, OBSERVATION_PUSH_CHUNK)))
    ensures
      var run := Drain(server, 0, Chunks(items, OBSERVATION_PUSH_CHUNK));
      && posts == run.posts
      && Settled(posts) + Flatten(run.left) == items
      && (r.Ok? <==> run.left == [])
    ensures |posts| + (|items| + 499) / 500 <= 2 * |items|
    ensures r.Ok? ==> r.value == Min(|Delivered(Fates(posts))|, 4_294_967_295)
    ensures r.Err? ==> posts != [] && posts[|posts| - 1].answer == Failed(r.error)
  {
    var chunks := Chunks(items, OBSERVATION_PUSH_CHUNK);
    RunOfPush(items, server);
    posts := [];
    if items == [] {
      return Ok(0), posts;
    }
    var total := 0;
    var stack := Reversed(chunks);
    ghost var todo := chunks;
    while stack != []
      invariant stack == Reversed(todo) && Underway(server, chunks, posts, todo, total)
      decreases if NoneEmpty(todo) then Work(todo) else 0
    {
      var chunk := stack[|stack| - 1];
      stack := stack[..|stack| - 1];
      PopReversed(todo);
      var answer := server(|posts|, chunk);
      TurnOfLoop(server, chunks, posts, todo, total);
      if answer.Failed? {
        posts := posts + [Post(chunk, answer)];
        return Err(answer.reason), posts;
      }
      if answer.Accepted? {
        total := SaturatingAdd(total, |chunk|);
      } else if |chunk| > 1 {
        var mid := |chunk| / 2;
        stack := stack + [chunk[mid..]] + [chunk[..mid]];
        PushReversed(todo[1..], chunk[..mid], chunk[mid..]);
      }
      posts := posts + [Post(chunk, answer)];
      todo := Next(todo, answer);
    }
    return Ok(total), posts;
  }

  /** What was posted, continued with the chunks to do, is the whole run; `total` counts what was delivered. */
  ghost predicate Underway<T>(server: (nat, seq<T>) -> Answer, chunks: seq<seq<T>>, posts: seq<Post<T>>,
                              todo: seq<seq<T>>, total: nat) {
    && NoneEmpty(chunks) && NoneEmpty(todo)
    && Drain(server, 0, chunks) == Continued(posts, Drain(server, |posts|, todo))
    && total == Min(|Delivered(Fates(posts))|, U32_MAX)
  }

  lemma TurnOfLoop<T>(server: (nat, seq<T>) -> Answer, chunks: seq<seq<T>>, posts: seq<Post<T>>, todo: seq<seq<T>>,
                      total: nat)
    requires Underway(server, chunks, posts, todo, total) && todo != []
    ensures
      var answer := server(|posts|, todo[0]);
      var after := posts + [Post(todo[0], answer)];
      var more := if answer.Accepted? then SaturatingAdd(total, |todo[0]|) else total;
      if answer.Failed? then Drain(server, 0, chunks) == Run(after, todo)
      else
        && Underway(server, chunks, after, Next(todo, answer), more)
        && Work(Next(todo, answer)) < Work(todo)
  {
    var answer := server(|posts|, todo[0]);
    RunStep(posts, server, |posts|, todo);
    if !answer.Failed? {
      TotalStep(posts, Post(todo[0], answer));
      SaturatingSum(|Delivered(Fates(posts))|, |todo[0]|);
    }
  }

  lemma PopReversed<T>(todo: seq<T>)
    requires todo != []
    ensures Reversed(todo)[..|todo| - 1] == Reversed(todo[1..])
  {
  }

  lemma PushReversed<T>(rest: seq<T>, left: T, right: T)
    ensures Reversed(rest) + [right] + [left] == Reversed([left, right] + rest)
  {
  }

  /** One turn of the loop, seen from the whole run. */
  lemma RunStep<T>(posts: seq<Post<T>>, server: (nat, seq<T>) -> Answer, n: nat, todo: seq<seq<T>>)
    requires NoneEmpty(todo) && todo != []
    ensures
      var answer := server(n, todo[0]);
      var after := posts + [Post(todo[0], answer)];
      && (answer.Failed? ==> Continued(posts, Drain(server, n, todo)) == Run(after, todo))
      && (!answer.Failed? ==>
            && NoneEmpty(Next(todo, answer)) && Work(Next(todo, answer)) < Work(todo)
            && Continued(posts, Drain(server, n, todo)) == Continued(after, Drain(server, n + 1, Next(todo, answer))))
  {
    var answer := server(n, todo[0]);
    if !answer.Failed? {
      NextIsLessWork(todo, answer);
      ContinuedStep(posts, Post(todo[0], answer), Drain(server, n + 1, Next(todo, answer)));
    }
  }

  /** What the run over the initial chunks promises, whatever the answers. */
  lemma RunOfPush<T(!new)>(items: seq<T>, server: (nat, seq<T>) -> Answer)
    ensures
      var run := Drain(server, 0, Chunks(items, OBSERVATION_PUSH_CHUNK));
      && Settled(run.posts) + Flatten(run.left) == items
      && |run.posts| + (|items| + 499) / 500 <= 2 * |items|
      && Answered(server, 0, run)
  {
    var chunks := Chunks(items, OBSERVATION_PUSH_CHUNK);
    NothingLostOrReordered(server, 0, chunks);
    EveryPostIsAnswered(server, 0, chunks);
    PostsAreBounded(server, 0, chunks);
    WorkIsTwiceTheItems(chunks);
    ChunkCount(items);
  }

  ghost function Continued<T>(posts: seq<Post<T>>, rest: Run<T>): Run<T> {
    Run(posts + rest.posts, rest.left)
  }

  lemma ContinuedStep<T>(posts: seq<Post<T>>, post: Post<T>, rest: Run<T>)
    ensures Continued(posts, Run([post] + rest.posts, rest.left)) == Continued(posts + [post], rest)
  {
    assert posts + ([post] + rest.posts) == (posts + [post]) + rest.posts;
  }

  lemma {:induction false} FatesSnoc<T>(posts: seq<Post<T>>, post: Post<T>)
    ensures Fates(posts + [post]) == Fates(posts) + FateOf(post)
  {
    if posts == [] {
      assert [post][1..] == [] && posts + [post] == [post];
    } else {
      FatesSnoc(posts[1..], post);
      assert (posts + [post])[1..] == posts[1..] + [post];
    }
  }

  lemma {:induction false} AllDelivered<T>(fates: seq<Fate<T>>)
    requires forall i | 0 <= i < |fates| :: fates[i].delivered
    ensures |Delivered(fates)| == |fates|
  {
    if fates != [] {
      AllDelivered(fates[1..]);
    }
  }

  lemma TotalStep<T>(posts: seq<Post<T>>, post: Post<T>)
    ensures |Delivered(Fates(posts + [post]))| == |Delivered(Fates(posts))|
        + (if post.answer.Accepted? then |post.chunk| else 0)
  {
    FatesSnoc(posts, post);
    DeliveredSum(Fates(posts), FateOf(post));
    if post.answer.Accepted? {
      AllDelivered(FateOf(post));
    }
  }
}
