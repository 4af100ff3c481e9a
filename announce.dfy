/** The announcements (outputMenuDiff, index.js:83-120): the delta is split into four
    groups and each product of each group yields one message, handed to createTweet
    together with the product's image. The Twitter call itself is left out; the model
    returns the sequence of calls in the order they are made. */
module Announce {
  import opened Seqs
  import opened JsStrings
  import opened Products
  import opened Diff
  import opened Classifier
  import opened Guardrail

  /** The length above which the name-only template is used. */
  const MaxTweetLength := 280

  /** One createTweet call: the message and the image reference passed with it. */
  datatype Tweet = Tweet(message: string, image: Option<string>)

  const AddedOtherPrefix := "\U{1F60B} ooOOOoo new menu item! "
  const AddedOtherShortPrefix := "ooOOOoo new menu item! "
  const RemovedOtherPrefix := "\U{1F62D} F's in chat for everyone's favorite "
  const RemovedOtherSuffix := " leaving the menu"
  const AddedCheesecakePrefix := "\U{1F6A8} NEW CHEESECAKE! NOT A DRILL! "
  const RemovedCheesecakePrefix := "\U{1F3F9}\U{1F525}\U{26F5} FOR OUR FALLEN BRETHREN CHEESECAKE "

  /** The full template of a group: prefix, name, a colon and the description. */
  function FullMessage(prefix: string, p: Product): string {
    prefix + p.name + ": " + p.description
  }

  /** The name-only template of a group. */
  function ShortMessage(prefix: string, p: Product): string {
    prefix + p.name
  }

  /** The length test of index.js:91, 105 and 114: over the limit, the short form. */
  function Capped(full: string, short: string): (m: string)
    ensures |full| <= MaxTweetLength ==> m == full
    ensures |full| > MaxTweetLength ==> m == short
  {
    if |full| > MaxTweetLength then short else full
  }

  /** The added-other template: the full message whenever it fits, otherwise the
      name-only message without the emoji. */
  function AddedOtherTweet(p: Product): (t: Tweet)
    ensures Announces(t, p)
    ensures |FullMessage(AddedOtherPrefix, p)| <= MaxTweetLength ==> t.message == FullMessage(AddedOtherPrefix, p)
    ensures |FullMessage(AddedOtherPrefix, p)| > MaxTweetLength ==> t.message == ShortMessage(AddedOtherShortPrefix, p)
    ensures |t.message| <= MaxTweetLength || t.message == ShortMessage(AddedOtherShortPrefix, p)
  {
    NameAfterPrefix(AddedOtherPrefix, p);
    NameAfterPrefix(AddedOtherShortPrefix, p);
    Tweet(Capped(FullMessage(AddedOtherPrefix, p), ShortMessage(AddedOtherShortPrefix, p)), p.image)
  }

  /** Removed products that are not cheesecakes are announced without a length test:
      the message always has the full template's length. */
  function RemovedOtherTweet(p: Product): (t: Tweet)
    ensures Announces(t, p)
    ensures |t.message| == |RemovedOtherPrefix| + |p.name| + |RemovedOtherSuffix|
  {
    var m := RemovedOtherPrefix + p.name + RemovedOtherSuffix;
    assert m[|RemovedOtherPrefix|..|RemovedOtherPrefix| + |p.name|] == p.name;
    assert OccursAt(m, p.name, |RemovedOtherPrefix|);
    Tweet(m, p.image)
  }

  /** The added-cheesecake template: the full message whenever it fits, otherwise the
      name-only message with the same prefix. */
  function AddedCheesecakeTweet(p: Product): (t: Tweet)
    ensures Announces(t, p)
    ensures |FullMessage(AddedCheesecakePrefix, p)| <= MaxTweetLength ==> t.message == FullMessage(AddedCheesecakePrefix, p)
    ensures |FullMessage(AddedCheesecakePrefix, p)| > MaxTweetLength ==> t.message == ShortMessage(AddedCheesecakePrefix, p)
    ensures |t.message| <= MaxTweetLength || t.message == ShortMessage(AddedCheesecakePrefix, p)
  {
    NameAfterPrefix(AddedCheesecakePrefix, p);
    Tweet(Capped(FullMessage(AddedCheesecakePrefix, p), ShortMessage(AddedCheesecakePrefix, p)), p.image)
  }

  /** The removed-cheesecake template, checked like the added one. */
  function RemovedCheesecakeTweet(p: Product): (t: Tweet)
    ensures Announces(t, p)
    ensures |FullMessage(RemovedCheesecakePrefix, p)| <= MaxTweetLength ==> t.message == FullMessage(RemovedCheesecakePrefix, p)
    ensures |FullMessage(RemovedCheesecakePrefix, p)| > MaxTweetLength ==> t.message == ShortMessage(RemovedCheesecakePrefix, p)
    ensures |t.message| <= MaxTweetLength || t.message == ShortMessage(RemovedCheesecakePrefix, p)
  {
    NameAfterPrefix(RemovedCheesecakePrefix, p);
    Tweet(Capped(FullMessage(RemovedCheesecakePrefix, p), ShortMessage(RemovedCheesecakePrefix, p)), p.image)
  }

  /** The four groups of index.js:84-87, in the order index.js:89-119 announces them. */
  function Groups(productDelta: Delta): (g: seq<seq<Product>>)
    ensures |g| == 4
    ensures IsSubsequence(g[0], productDelta.added) && IsSubsequence(g[1], productDelta.removed)
    ensures IsSubsequence(g[2], productDelta.added) && IsSubsequence(g[3], productDelta.removed)
    ensures forall i :: 0 <= i < |g[0]| ==> IsNotCheesecake(g[0][i])
    ensures forall i :: 0 <= i < |g[1]| ==> IsNotCheesecake(g[1][i])
    ensures forall i :: 0 <= i < |g[2]| ==> IsCheesecake(g[2][i])
    ensures forall i :: 0 <= i < |g[3]| ==> IsCheesecake(g[3][i])
  {
    FilterIsSubsequence(IsNotCheesecake, productDelta.added);
    FilterIsSubsequence(IsNotCheesecake, productDelta.removed);
    FilterIsSubsequence(IsCheesecake, productDelta.added);
    FilterIsSubsequence(IsCheesecake, productDelta.removed);
    FilterPasses(IsNotCheesecake, productDelta.added);
    FilterPasses(IsNotCheesecake, productDelta.removed);
    FilterPasses(IsCheesecake, productDelta.added);
    FilterPasses(IsCheesecake, productDelta.removed);
    [Filter(IsNotCheesecake, productDelta.added), Filter(IsNotCheesecake, productDelta.removed),
     Filter(IsCheesecake, productDelta.added), Filter(IsCheesecake, productDelta.removed)]
  }

  /** The createTweet calls outputMenuDiff makes, in order: one per product of each
      group, the groups in the order of Groups. */
  function Announcements(productDelta: Delta): (tweets: seq<Tweet>)
    ensures |tweets| == |productDelta.added| + |productDelta.removed|
  {
    var g := Groups(productDelta);
    GroupsPartitionDelta(productDelta);
    assert g == [Filter(IsNotCheesecake, productDelta.added), Filter(IsNotCheesecake, productDelta.removed),
                 Filter(IsCheesecake, productDelta.added), Filter(IsCheesecake, productDelta.removed)];
    Map(AddedOtherTweet, Filter(IsNotCheesecake, productDelta.added))
    + Map(RemovedOtherTweet, Filter(IsNotCheesecake, productDelta.removed))
    + Map(AddedCheesecakeTweet, Filter(IsCheesecake, productDelta.added))
    + Map(RemovedCheesecakeTweet, Filter(IsCheesecake, productDelta.removed))
  }

  /** outputMenuDiff: the four groups are announced one after the other, each by
      its own loop (index.js:89-96, 98-101, 103-110 and 112-119), in this order. */
  method OutputMenuDiff(productDelta: Delta) returns (tweets: seq<Tweet>)
    ensures tweets == Announcements(productDelta)
  {
    var addedCheesecakes := Filter(IsCheesecake, productDelta.added);
    var addedOthers := Filter(IsNotCheesecake, productDelta.added);
    var removedCheesecakes := Filter(IsCheesecake, productDelta.removed);
    var removedOthers := Filter(IsNotCheesecake, productDelta.removed);

    tweets := [];
    tweets := AnnounceAddedOthers(tweets, addedOthers);
    assert tweets == Map(AddedOtherTweet, addedOthers);
    tweets := AnnounceRemovedOthers(tweets, removedOthers);
    tweets := AnnounceAddedCheesecakes(tweets, addedCheesecakes);
    tweets := AnnounceRemovedCheesecakes(tweets, removedCheesecakes);
  }

  /** The loop of index.js:89-96: after the calls made so far, one call per added
      product that is not a cheesecake. */
  method AnnounceAddedOthers(sent: seq<Tweet>, addedOthers: seq<Product>) returns (tweets: seq<Tweet>)
    ensures tweets == sent + Map(AddedOtherTweet, addedOthers)
  {
    tweets := sent;
    assert sent == sent + Map(AddedOtherTweet, addedOthers[..0]);
    for i := 0 to |addedOthers|
      invariant tweets == sent + Map(AddedOtherTweet, addedOthers[..i])
    {
      var tweet := AddedOtherPrefix + addedOthers[i].name + ": " + addedOthers[i].description;
      if |tweet| > MaxTweetLength {
        tweets := tweets + [Tweet(AddedOtherShortPrefix + addedOthers[i].name, addedOthers[i].image)];
      } else {
        tweets := tweets + [Tweet(tweet, addedOthers[i].image)];
      }
      MapPrefixSnoc(AddedOtherTweet, addedOthers, i);
    }
    assert addedOthers[..|addedOthers|] == addedOthers;
  }

  /** The loop of index.js:98-101: one call per removed product that is not a
      cheesecake, with no length test. */
  method AnnounceRemovedOthers(sent: seq<Tweet>, removedOthers: seq<Product>) returns (tweets: seq<Tweet>)
    ensures tweets == sent + Map(RemovedOtherTweet, removedOthers)
  {
    tweets := sent;
    assert sent == sent + Map(RemovedOtherTweet, removedOthers[..0]);
    for i := 0 to |removedOthers|
      invariant tweets == sent + Map(RemovedOtherTweet, removedOthers[..i])
    {
      var tweet := RemovedOtherPrefix + removedOthers[i].name + RemovedOtherSuffix;
      tweets := tweets + [Tweet(tweet, removedOthers[i].image)];
      MapPrefixSnoc(RemovedOtherTweet, removedOthers, i);
    }
    assert removedOthers[..|removedOthers|] == removedOthers;
  }

  /** The loop of index.js:103-110: one call per added cheesecake. */
  method AnnounceAddedCheesecakes(sent: seq<Tweet>, addedCheesecakes: seq<Product>) returns (tweets: seq<Tweet>)
    ensures tweets == sent + Map(AddedCheesecakeTweet, addedCheesecakes)
  {
    tweets := sent;
    assert sent == sent + Map(AddedCheesecakeTweet, addedCheesecakes[..0]);
    for i := 0 to |addedCheesecakes|
      invariant tweets == sent + Map(AddedCheesecakeTweet, addedCheesecakes[..i])
    {
      var tweet := AddedCheesecakePrefix + addedCheesecakes[i].name + ": " + addedCheesecakes[i].description;
      if |tweet| > MaxTweetLength {
        tweets := tweets + [Tweet(AddedCheesecakePrefix + addedCheesecakes[i].name, addedCheesecakes[i].image)];
      } else {
        tweets := tweets + [Tweet(tweet, addedCheesecakes[i].image)];
      }
      MapPrefixSnoc(AddedCheesecakeTweet, addedCheesecakes, i);
    }
    assert addedCheesecakes[..|addedCheesecakes|] == addedCheesecakes;
  }

  /** The loop of index.js:112-119: one call per removed cheesecake. */
  method AnnounceRemovedCheesecakes(sent: seq<Tweet>, removedCheesecakes: seq<Product>) returns (tweets: seq<Tweet>)
    ensures tweets == sent + Map(RemovedCheesecakeTweet, removedCheesecakes)
  {
    tweets := sent;
    assert sent == sent + Map(RemovedCheesecakeTweet, removedCheesecakes[..0]);
    for i := 0 to |removedCheesecakes|
      invariant tweets == sent + Map(RemovedCheesecakeTweet, removedCheesecakes[..i])
    {
      var tweet := RemovedCheesecakePrefix + removedCheesecakes[i].name + ": " + removedCheesecakes[i].description;
      if |tweet| > MaxTweetLength {
        tweets := tweets + [Tweet(RemovedCheesecakePrefix + removedCheesecakes[i].name, removedCheesecakes[i].image)];
      } else {
        tweets := tweets + [Tweet(tweet, removedCheesecakes[i].image)];
      }
      MapPrefixSnoc(RemovedCheesecakeTweet, removedCheesecakes, i);
    }
    assert removedCheesecakes[..|removedCheesecakes|] == removedCheesecakes;
  }

  lemma MapPrefixSnoc<T, U>(f: T -> U, s: seq<T>, i: nat)
    requires i < |s|
    ensures Map(f, s[..i + 1]) == Map(f, s[..i]) + [f(s[i])]
  {
    assert s[..i + 1] == s[..i] + [s[i]];
    MapSnoc(f, s[..i], s[i]);
  }

  /** The products announced, group by group. */
  function AnnouncedProducts(productDelta: Delta): seq<Product> {
    var g := Groups(productDelta);
    g[0] + g[1] + g[2] + g[3]
  }

  /** A message announces a product when it names it and carries its image. */
  ghost predicate Announces(t: Tweet, p: Product) {
    t.image == p.image && exists k: nat :: OccursAt(t.message, p.name, k)
  }

  /** The i-th message announces the i-th product. */
  ghost predicate AnnouncesEach(tweets: seq<Tweet>, products: seq<Product>) {
    |tweets| == |products| && forall i :: 0 <= i < |tweets| ==> Announces(tweets[i], products[i])
  }

  lemma NameAfterPrefix(prefix: string, p: Product)
    ensures OccursAt(FullMessage(prefix, p), p.name, |prefix|)
    ensures OccursAt(ShortMessage(prefix, p), p.name, |prefix|)
  {
    assert FullMessage(prefix, p)[|prefix|..|prefix| + |p.name|] == p.name;
    assert ShortMessage(prefix, p)[|prefix|..|prefix| + |p.name|] == p.name;
  }

  lemma AnnouncesEachAppend(t1: seq<Tweet>, p1: seq<Product>, t2: seq<Tweet>, p2: seq<Product>)
    requires AnnouncesEach(t1, p1) && AnnouncesEach(t2, p2)
    ensures AnnouncesEach(t1 + t2, p1 + p2)
  {
    forall i | 0 <= i < |t1 + t2| ensures Announces((t1 + t2)[i], (p1 + p2)[i]) {
      if i >= |t1| {
        assert (t1 + t2)[i] == t2[i - |t1|] && (p1 + p2)[i] == p2[i - |t1|];
      }
    }
  }

  lemma GroupsAnnounced(g: seq<seq<Product>>)
    requires |g| == 4
    ensures AnnouncesEach(Map(AddedOtherTweet, g[0]), g[0])
    ensures AnnouncesEach(Map(RemovedOtherTweet, g[1]), g[1])
    ensures AnnouncesEach(Map(AddedCheesecakeTweet, g[2]), g[2])
    ensures AnnouncesEach(Map(RemovedCheesecakeTweet, g[3]), g[3])
  {
  }

  /** Exactly one message per product of the delta: the groups hold every added and
      every removed product exactly as often as the delta does, and the i-th message
      announces the i-th product of the groups. */
  lemma OneMessagePerProduct(productDelta: Delta)
    ensures multiset(AnnouncedProducts(productDelta))
         == multiset(productDelta.added) + multiset(productDelta.removed)
    ensures |Announcements(productDelta)| == |productDelta.added| + |productDelta.removed|
    ensures AnnouncesEach(Announcements(productDelta), AnnouncedProducts(productDelta))
  {
    GroupsPartitionDelta(productDelta);
    var g := Groups(productDelta);
    GroupsAnnounced(g);
    var m0, m1, m2, m3 := Map(AddedOtherTweet, g[0]), Map(RemovedOtherTweet, g[1]),
      Map(AddedCheesecakeTweet, g[2]), Map(RemovedCheesecakeTweet, g[3]);
    AnnouncesEachAppend(m0, g[0], m1, g[1]);
    AnnouncesEachAppend(m0 + m1, g[0] + g[1], m2, g[2]);
    AnnouncesEachAppend(m0 + m1 + m2, g[0] + g[1] + g[2], m3, g[3]);
  }

  lemma GroupsPartitionDelta(productDelta: Delta)
    ensures multiset(AnnouncedProducts(productDelta))
         == multiset(productDelta.added) + multiset(productDelta.removed)
    ensures |AnnouncedProducts(productDelta)| == |productDelta.added| + |productDelta.removed|
  {
    var g := Groups(productDelta);
    FilterPartition(IsNotCheesecake, IsCheesecake, productDelta.added);
    FilterPartition(IsNotCheesecake, IsCheesecake, productDelta.removed);
    InterleavedParts(g[0], g[1], g[2], g[3], productDelta.added, productDelta.removed);
  }

  /** Two lists split in two parts each, the parts laid out as a, b, c, d. */
  lemma InterleavedParts<T>(a: seq<T>, b: seq<T>, c: seq<T>, d: seq<T>, x: seq<T>, y: seq<T>)
    requires multiset(a) + multiset(c) == multiset(x) && |a| + |c| == |x|
    requires multiset(b) + multiset(d) == multiset(y) && |b| + |d| == |y|
    ensures multiset(a + b + c + d) == multiset(x) + multiset(y)
    ensures |a + b + c + d| == |x| + |y|
  {
    calc {
      multiset(a + b + c + d);
      multiset(a + b + c) + multiset(d);
      multiset(a + b) + multiset(c) + multiset(d);
      multiset(a) + multiset(b) + multiset(c) + multiset(d);
      (multiset(a) + multiset(c)) + (multiset(b) + multiset(d));
    }
  }

  /** Within the guardrails a run posts at most twenty messages. */
  lemma GuardedRunPostsAtMostTwenty(productDelta: Delta)
    requires !IsOutsideGuardrails(productDelta)
    ensures |Announcements(productDelta)| <= 2 * MaxMenuDelta
  {
    OneMessagePerProduct(productDelta);
  }

  /** The fallback rule of a checked group: a full message that fits is posted as is,
      description included; one that does not is replaced by the strictly shorter
      name-only message. */
  lemma CappedFallback(prefix: string, shortPrefix: string, p: Product)
    requires |shortPrefix| <= |prefix|
    ensures var m := Capped(FullMessage(prefix, p), ShortMessage(shortPrefix, p));
      && (|FullMessage(prefix, p)| <= MaxTweetLength ==>
            m == FullMessage(prefix, p) && OccursAt(m, p.description, |prefix| + |p.name| + 2))
      && (|FullMessage(prefix, p)| > MaxTweetLength ==>
            m == ShortMessage(shortPrefix, p) && |m| < |FullMessage(prefix, p)|)
  {
    var full := FullMessage(prefix, p);
    var k := |prefix| + |p.name| + 2;
    assert full[k..k + |p.description|] == p.description;
  }

  /** Whatever the description, the message of a checked group fits when its
      name-only form fits; this covers the added-other group, whose name-only form
      drops the emoji, as well as the two cheesecake groups. */
  lemma ShortMessageFits(prefix: string, shortPrefix: string, p: Product)
    requires |shortPrefix + p.name| <= MaxTweetLength
    ensures |Capped(FullMessage(prefix, p), ShortMessage(shortPrefix, p))| <= MaxTweetLength
  {
  }

  /** The name-only fallback is not itself checked: an added product with a 300-letter
      name and no description is announced with a message longer than the limit. */
  lemma ShortMessageCanExceedLimit(description: string, category: string)
    ensures var p := Product(seq(300, _ => 'x'), description, None, category, None);
      |AddedOtherTweet(p).message| > MaxTweetLength
      && |AddedCheesecakeTweet(p).message| > MaxTweetLength
      && |RemovedCheesecakeTweet(p).message| > MaxTweetLength
  {
  }

  /** Removed products that are not cheesecakes are never shortened: whatever their
      length, the message is the full template. */
  lemma RemovedOtherIsNeverShortened(p: Product)
    requires |p.name| > MaxTweetLength
    ensures |RemovedOtherTweet(p).message| > MaxTweetLength
    ensures RemovedOtherTweet(p).message[|RemovedOtherPrefix| + |p.name|..] == RemovedOtherSuffix
  {
  }

  // The fallback evidently intended: the name-only message is meant to fit, so a
  // name too long for it is cut at the limit. The run keeps the behaviour as written.

  function Min(a: int, b: int): int {
    if a <= b then a else b
  }

  /** The name-only message cut to the limit: the longest prefix of it that fits. */
  function FittedShortMessage(prefix: string, p: Product): (m: string)
    requires |prefix| <= MaxTweetLength
    ensures |m| == Min(|ShortMessage(prefix, p)|, MaxTweetLength)
    ensures m == ShortMessage(prefix, p)[..|m|]
  {
    var full := ShortMessage(prefix, p);
    if |full| <= MaxTweetLength then full
    else
      var m := prefix + p.name[..MaxTweetLength - |prefix|];
      assert m == full[..MaxTweetLength];
      m
  }

  /** A checked group's message with the fallback that always fits. */
  function FittedTweet(prefix: string, shortPrefix: string, p: Product): (t: Tweet)
    requires |shortPrefix| <= MaxTweetLength
    ensures |t.message| <= MaxTweetLength
    ensures t.image == p.image
    ensures |FullMessage(prefix, p)| <= MaxTweetLength ==> t.message == FullMessage(prefix, p)
    ensures |FullMessage(prefix, p)| > MaxTweetLength && |ShortMessage(shortPrefix, p)| <= MaxTweetLength
      ==> t.message == ShortMessage(shortPrefix, p)
  {
    Tweet(Capped(FullMessage(prefix, p), FittedShortMessage(shortPrefix, p)), p.image)
  }

  /** The fitted templates always fit, and they post exactly what the code posts
      whenever the code's message fits. */
  lemma {:induction false} FittedTweetsAgree(p: Product)
    ensures var t := FittedTweet(AddedOtherPrefix, AddedOtherShortPrefix, p);
      |t.message| <= MaxTweetLength && (|AddedOtherTweet(p).message| <= MaxTweetLength ==> t == AddedOtherTweet(p))
    ensures var t := FittedTweet(AddedCheesecakePrefix, AddedCheesecakePrefix, p);
      |t.message| <= MaxTweetLength && (|AddedCheesecakeTweet(p).message| <= MaxTweetLength ==> t == AddedCheesecakeTweet(p))
    ensures var t := FittedTweet(RemovedCheesecakePrefix, RemovedCheesecakePrefix, p);
      |t.message| <= MaxTweetLength && (|RemovedCheesecakeTweet(p).message| <= MaxTweetLength ==> t == RemovedCheesecakeTweet(p))
  {
  }

  /** The 300-letter name of ShortMessageCanExceedLimit: the fitted fallback posts
      the first 280 characters of the name-only message. */
  lemma FittedTweetCutsLongName(description: string, category: string)
    ensures var p := Product(seq(300, _ => 'x'), description, None, category, None);
      var t := FittedTweet(AddedCheesecakePrefix, AddedCheesecakePrefix, p);
      |t.message| == MaxTweetLength && t.message == ShortMessage(AddedCheesecakePrefix, p)[..MaxTweetLength]
  {
  }
}
