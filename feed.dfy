/** The posts of a user's feed as the program reads them, and the
    resources (photos and videos) one post contributes to the download
    list. */
module Feed {
  import opened Wrappers
  import opened Ordering

  /** What every resource of a post carries along: its numeric id, short id,
      publication date (`None` where it could not be read) and text. */
  datatype Mark = Mark(mid: int, bid: string, date: Option<Date>, text: string)

  /** A photo remembers its 1-based position among the post's pictures. */
  datatype Kind = Photo(index: nat) | Video

  datatype Resource = Resource(url: string, kind: Kind, mark: Mark)

  /** A picture entry; `large` is the url of its large rendition, when the
      entry has one. */
  datatype Pic = Pic(large: Option<string>)

  /** The `page_info` of a post; `mediaInfo` maps stream names to urls. */
  datatype PageInfo = PageInfo(mediaInfo: Option<map<string, string>>)

  /** The `mblog` of a card. `pics` and `pageInfo` are `None` where the key
      is absent. */
  datatype Mblog = Mblog(isTop: bool, mid: int, bid: string, date: Option<Date>, text: string,
                         pics: Option<seq<Pic>>, pageInfo: Option<PageInfo>)

  /** A feed card; only cards with an `mblog` are posts. */
  datatype Card = Card(mblog: Option<Mblog>)

  function MarkOf(m: Mblog): Mark {
    Mark(m.mid, m.bid, m.date, m.text)
  }

  /** The photo resources of `pics`: one per picture with a large
      rendition, numbered by its position among all the pictures. */
  function Photos(pics: seq<Pic>, mark: Mark): seq<Resource> {
    if pics == [] then []
    else
      var earlier := Photos(pics[..|pics| - 1], mark);
      var last := pics[|pics| - 1];
      if last.large.Some? then earlier + [Resource(last.large.value, Photo(|pics|), mark)]
      else earlier
  }

  /** The loop of the source over `enumerate(pics, 1)`, appending to
      `resources`. */
  method AppendPhotos(resources: seq<Resource>, pics: seq<Pic>, mark: Mark) returns (out: seq<Resource>)
    ensures out == resources + Photos(pics, mark)
  {
    out := resources;
    var index := 0;
    while index < |pics|
      invariant 0 <= index <= |pics|
      invariant out == resources + Photos(pics[..index], mark)
    {
      var pic := pics[index];
      assert pics[..index + 1][..index] == pics[..index];
      if pic.large.Some? {
        out := out + [Resource(pic.large.value, Photo(index + 1), mark)];
      }
      index := index + 1;
    }
    assert pics[..index] == pics;
  }

  /** Exactly the pictures with a large rendition become photos, each once,
      in the order of the pictures, keeping their original positions (gaps
      included). */
  lemma {:induction false} PhotosMeaning(pics: seq<Pic>, mark: Mark)
    ensures forall r :: r in Photos(pics, mark) ==>
      r.kind.Photo? && 1 <= r.kind.index <= |pics|
      && pics[r.kind.index - 1].large == Some(r.url) && r.mark == mark
    ensures forall j :: 0 <= j < |pics| && pics[j].large.Some? ==>
      Resource(pics[j].large.value, Photo(j + 1), mark) in Photos(pics, mark)
    ensures forall a, b :: 0 <= a < b < |Photos(pics, mark)| ==>
      Photos(pics, mark)[a].kind.Photo? && Photos(pics, mark)[b].kind.Photo?
      && Photos(pics, mark)[a].kind.index < Photos(pics, mark)[b].kind.index
  {
    if pics != [] {
      var n := |pics| - 1;
      var init := pics[..n];
      PhotosMeaning(init, mark);
      var earlier := Photos(init, mark);
      assert forall j :: 0 <= j < n ==> init[j] == pics[j];
      forall j | 0 <= j < n && pics[j].large.Some?
        ensures Resource(pics[j].large.value, Photo(j + 1), mark) in earlier
      {
        assert init[j] == pics[j];
      }
      if pics[n].large.Some? {
        var last := Resource(pics[n].large.value, Photo(n + 1), mark);
        assert Photos(pics, mark) == earlier + [last];
        assert forall r :: r in earlier ==> r in earlier + [last];
        forall r | r in earlier + [last]
          ensures r.kind.Photo? && 1 <= r.kind.index <= |pics|
                  && pics[r.kind.index - 1].large == Some(r.url) && r.mark == mark
        {
          if r != last {
            assert r in earlier;
          }
        }
        forall a, b | 0 <= a < b < |earlier| + 1
          ensures (earlier + [last])[a].kind.Photo? && (earlier + [last])[b].kind.Photo?
                  && (earlier + [last])[a].kind.index < (earlier + [last])[b].kind.index
        {
          assert (earlier + [last])[a] == earlier[a];
          assert earlier[a] in earlier;
          if b < |earlier| {
            assert (earlier + [last])[b] == earlier[b];
          } else {
            assert (earlier + [last])[b] == last;
            assert earlier[a].kind.index <= n;
          }
        }
      } else {
        assert Photos(pics, mark) == earlier;
      }
    } else {
      assert Photos(pics, mark) == [];
    }
  }

  /** The number of photos is the number of pictures with a large
      rendition. */
  lemma {:induction false} PhotosCount(pics: seq<Pic>, mark: Mark)
    ensures |Photos(pics, mark)| == |set j | 0 <= j < |pics| && pics[j].large.Some?|
  {
    if pics != [] {
      var n := |pics| - 1;
      var init := pics[..n];
      PhotosCount(init, mark);
      var before := set j | 0 <= j < n && init[j].large.Some?;
      var all := set j | 0 <= j < |pics| && pics[j].large.Some?;
      assert before == set j | 0 <= j < n && pics[j].large.Some?;
      if pics[n].large.Some? {
        assert all == before + {n};
      } else {
        assert all == before;
      }
    }
  }

  /** The stream names tried for a video, best first. */
  const StreamKeys: seq<string> := ["mp4_720p_mp4", "mp4_hd_url", "mp4_sd_url", "stream_url"]

  /** The first of `keys` that `media` maps to a non-empty url. */
  function FirstStream(media: map<string, string>, keys: seq<string>): (url: Option<string>)
    ensures url.None? <==> forall k :: 0 <= k < |keys| ==> keys[k] !in media || media[keys[k]] == ""
    ensures url.Some? ==> exists k :: 0 <= k < |keys| && keys[k] in media && media[keys[k]] == url.value
                                      && url.value != ""
                                      && forall j :: 0 <= j < k ==> keys[j] !in media || media[keys[j]] == ""
  {
    if keys == [] then None
    else if keys[0] in media && media[keys[0]] != "" then Some(media[keys[0]])
    else
      var url := FirstStream(media, keys[1..]);
      if url.Some? then
        var k :| 0 <= k < |keys[1..]| && keys[1..][k] in media && media[keys[1..][k]] == url.value
                 && url.value != ""
                 && forall j :: 0 <= j < k ==> keys[1..][j] !in media || media[keys[1..][j]] == "";
        assert keys[k + 1] == keys[1..][k];
        url
      else
        url
  }

  /** The video url of a post: the best stream it offers. */
  function BestStream(media: map<string, string>): Option<string> {
    FirstStream(media, StreamKeys)
  }

  /** The resources a post contributes once it is known to be in range:
      its photos when it has a `pics` list (even an empty one), and
      otherwise, when videos are wanted, at most one video. */
  function PostResources(m: Mblog, video: bool): (rs: seq<Resource>)
    ensures forall r :: r in rs ==> r.mark == MarkOf(m)
    ensures m.pics.Some? ==> forall r :: r in rs ==> r.kind.Photo?
    ensures m.pics.None? ==> |rs| <= 1 && forall r :: r in rs ==> r.kind.Video?
    ensures m.pics.None? && !video ==> rs == []
  {
    if m.pics.Some? then
      PhotosMeaning(m.pics.value, MarkOf(m));
      Photos(m.pics.value, MarkOf(m))
    else if m.pageInfo.Some? && video && m.pageInfo.value.mediaInfo.Some? then
      match BestStream(m.pageInfo.value.mediaInfo.value)
      case Some(url) => [Resource(url, Video, MarkOf(m))]
      case None => []
    else []
  }

  /** A post that is not pinned is counted. */
  predicate Counted(card: Card) {
    card.mblog.Some? && !card.mblog.value.isTop
  }

  /** `compare(lower, '>', [mid, date]) or compare(upper, '<', [mid, date])`. */
  predicate OutOfRange(m: Mblog, lower: Value, upper: Value) {
    BelowLower(lower, m.mid, m.date) || AboveUpper(upper, m.mid, m.date)
  }

  /** The resources one card contributes. */
  function CardResources(card: Card, lower: Value, upper: Value, video: bool): (rs: seq<Resource>)
    ensures rs != [] ==> Counted(card) && !OutOfRange(card.mblog.value, lower, upper)
    ensures rs != [] ==> forall r :: r in rs ==> r.mark == MarkOf(card.mblog.value)
    ensures forall r :: r in rs ==>
      !BelowLower(lower, r.mark.mid, r.mark.date) && !AboveUpper(upper, r.mark.mid, r.mark.date)
    ensures !video && card.mblog.Some? && card.mblog.value.pics.None? ==> rs == []
  {
    if !Counted(card) || OutOfRange(card.mblog.value, lower, upper) then []
    else
      var m := card.mblog.value;
      var rs := PostResources(m, video);
      PhotosMeaning(if m.pics.Some? then m.pics.value else [], MarkOf(m));
      rs
  }

  /** A post with a video and no `pics` key yields exactly the best stream. */
  lemma VideoPost(m: Mblog, media: map<string, string>, lower: Value, upper: Value)
    requires !m.isTop && !OutOfRange(m, lower, upper)
    requires m.pics.None? && m.pageInfo == Some(PageInfo(Some(media)))
    ensures CardResources(Card(Some(m)), lower, upper, true)
         == if BestStream(media).Some? then [Resource(BestStream(media).value, Video, MarkOf(m))] else []
    ensures |CardResources(Card(Some(m)), lower, upper, true)| <= 1
  {
  }

  /** A post that has a `pics` key never yields a video. */
  lemma PicsExcludeVideo(m: Mblog, lower: Value, upper: Value, video: bool)
    requires m.pics.Some?
    ensures forall r :: r in CardResources(Card(Some(m)), lower, upper, video) ==> r.kind.Photo?
  {
    PhotosMeaning(m.pics.value, MarkOf(m));
  }

  /** A post without a readable date is never excluded by date bounds. */
  lemma UndatedPostKept(m: Mblog, lower: Date, upper: Date, video: bool)
    requires !m.isTop && m.date.None?
    ensures CardResources(Card(Some(m)), Dated(lower), Dated(upper), video) == PostResources(m, video)
  {
    DateBoundWithoutDate(lower, ">", m.mid);
    DateBoundWithoutDate(upper, "<", m.mid);
  }
}
