/** The presentation items a view reads: a tweet (plain post, retweet or comment) and its
    author, each a thin wrapper whose properties are computed from the raw API record. */
module TweetItems {
  import opened RawRecords
  import RelativeTime

  /** The item kinds, exposed to the view as the integers TWEET = 0, RETWEET = 1 and
      COMMENT = 2. */
  datatype Kind = Tweet | Retweet | Comment {
    function Code(): (c: int)
      ensures 0 <= c <= 2
      ensures c == 0 <==> this == Tweet
      ensures c == 1 <==> this == Retweet
    {
      match this
      case Tweet => 0
      case Retweet => 1
      case Comment => 2
    }
  }

  /** The collaborators the items call but that are not modelled: the opaque message-id
      encoder, Python's rendering of a value as text (`str(v)`, `'%s' % v`), and the
      timestamp parser together with the subtraction of the parsed UTC offset, giving whole
      UTC seconds. */
  datatype Collaborators = Collaborators(
    getMid: Value -> string,
    render: Value -> string,
    parseTime: Value -> int)

  /** What a wrapper property hands out: nothing, a wrapper around a nested record, or a
      wrapper around a value that is not a record (every property read on it raises). */
  datatype Wrapped<T> = Absent | Readable(item: T) | Unreadable(raw: Value)

  const WeiboHome := "http://weibo.com/"

  /** The author of a tweet. */
  datatype UserItem = UserItem(data: Record) {
    function Id(): (r: Option<Value>)
      ensures r.Some? <==> "idstr" in data
      ensures r.Some? ==> r.value == data["idstr"]
    {
      Get(data, "idstr")
    }

    function Name(): (r: Option<Value>)
      ensures r.Some? <==> "name" in data
      ensures r.Some? ==> r.value == data["name"]
    {
      Get(data, "name")
    }

    function Avatar(): (r: Option<Value>)
      ensures r.Some? <==> "profile_image_url" in data
      ensures r.Some? ==> r.value == data["profile_image_url"]
    {
      Get(data, "profile_image_url")
    }
  }

  /** A tweet, a retweet or a comment, as the list model stores it. */
  datatype TweetItem = TweetItem(data: Record) {

    /** A record is a retweet when it carries the retweeted status, otherwise a comment when
        it carries the commented status, otherwise a plain tweet. */
    function Kind(): (k: Kind)
      ensures k == Retweet <==> "retweeted_status" in data
      ensures k == Comment <==> "retweeted_status" !in data && "status" in data
      ensures k == Tweet <==> "retweeted_status" !in data && "status" !in data
    {
      if "retweeted_status" in data then Retweet
      else if "status" in data then Comment
      else Tweet
    }

    function Id(): (r: Option<Value>)
      ensures r.Some? <==> "idstr" in data
      ensures r.Some? ==> r.value == data["idstr"]
    {
      Get(data, "idstr")
    }

    /** The encoder applied to the text of the raw `mid`; an absent `mid` is rendered as
        Python renders None. */
    function Mid(env: Collaborators): (r: string)
      ensures "mid" in data ==> r == env.getMid(Value.Text(env.render(data["mid"])))
      ensures "mid" !in data ==> r == env.getMid(Value.Text(env.render(Null)))
    {
      var decimalMid := env.render(match Get(data, "mid") case Some(v) => v case None => Null);
      env.getMid(Value.Text(decimalMid))
    }

    /** The status page: empty when the author, the author's id or the mid is missing (the
        lookup's KeyError is caught), None when the author is present but not a record (the
        lookup raises TypeError, which escapes), and otherwise the home URL followed by the
        author id and the encoded mid. */
    function Url(env: Collaborators): (u: Option<string>)
      ensures u.None? <==> "user" in data && !data["user"].Obj?
      ensures u == Some("") <==>
                "user" !in data ||
                (data["user"].Obj? && ("id" !in data["user"].fields || "mid" !in data))
      ensures u.Some? && u.value != "" ==>
                "user" in data && data["user"].Obj? && "id" in data["user"].fields &&
                "mid" in data &&
                u.value == WeiboHome + env.render(data["user"].fields["id"]) + "/" +
                           env.getMid(data["mid"])
    {
      if "user" !in data then Some("")
      else match data["user"]
        case Obj(user) =>
          if "id" !in user || "mid" !in data then Some("")
          else
            var uid := user["id"];
            var mid := env.getMid(data["mid"]);
            Some(WeiboHome + env.render(uid) + "/" + mid)
        case _ => None
    }

    /** The author, when the record names one. */
    function Author(): (a: Wrapped<UserItem>)
      ensures a.Absent? <==> "user" !in data
      ensures "user" in data && data["user"].Obj? ==>
                a == Readable(UserItem(data["user"].fields))
      ensures "user" in data && !data["user"].Obj? ==> a == Unreadable(data["user"])
    {
      if "user" in data then Wrap(data["user"], (r: Record) => UserItem(r)) else Absent
    }

    /** The relative creation time (with the whole elapsed time, see
        RelativeTime.SinceTimeStringTotal). */
    function Time(env: Collaborators, now: int): (r: Option<RelativeTime.TimeText>)
      ensures r.None? <==> !Truthy(Get(data, "created_at"))
      ensures r.Some? && r.value.DaysAgo? ==>
                RelativeTime.SecondsPerDay <=
                now - env.parseTime(data["created_at"])
    {
      RelativeTime.SinceTimeStringTotal(Get(data, "created_at"), env.parseTime, now)
    }

    function Text(): (r: Option<Value>)
      ensures r.Some? <==> "text" in data
      ensures r.Some? ==> r.value == data["text"]
    {
      Get(data, "text")
    }

    /** The retweeted status of a retweet and the commented status of a comment, wrapped as
        a tweet item of its own; nothing for a plain tweet. */
    function Original(): (o: Wrapped<TweetItem>)
      ensures o.Absent? <==> Kind() == Tweet
      ensures Kind() == Retweet ==> o == Nested(data["retweeted_status"])
      ensures Kind() == Comment ==> o == Nested(data["status"])
    {
      match Kind()
      case Retweet => Nested(data["retweeted_status"])
      case Comment => Nested(data["status"])
      case Tweet => Absent
    }

    function ThumbnailPic(): (r: Value)
      ensures "thumbnail_pic" in data ==> r == data["thumbnail_pic"]
      ensures "thumbnail_pic" !in data ==> r == Value.Text("")
    {
      match Get(data, "thumbnail_pic")
      case Some(v) => v
      case None => Value.Text("")
    }

    function OriginalPic(): (r: Option<Value>)
      ensures r.Some? <==> "original_pic" in data
      ensures r.Some? ==> r.value == data["original_pic"]
    {
      Get(data, "original_pic")
    }
  }

  /** A nested value wrapped as a tweet item. */
  function Nested(v: Value): Wrapped<TweetItem>
  {
    if v.Obj? then Readable(TweetItem(v.fields)) else Unreadable(v)
  }

  /** Wraps a nested value: a record becomes the item `make` builds from it. */
  function Wrap<T>(v: Value, make: Record -> T): (w: Wrapped<T>)
    ensures v.Obj? ==> w == Readable(make(v.fields))
    ensures !v.Obj? ==> w == Unreadable(v)
  {
    match v
    case Obj(fields) => Readable(make(fields))
    case _ => Unreadable(v)
  }

  /** The items that constructing `TweetItem(record)` wraps one inside the other: its role
      table holds the wrapped original, whose own role table holds the next original, and so
      on until a plain tweet or a nested value that is not a record. The chain is finite
      because each original is a record nested inside the previous one. */
  function Originals(item: TweetItem): (chain: seq<TweetItem>)
    decreases Obj(item.data)
    ensures chain == [] <==> !item.Original().Readable?
    ensures forall i :: 0 <= i < |chain| ==>
              (if i == 0 then item else chain[i - 1]).Original() == Readable(chain[i])
    ensures chain != [] ==> !chain[|chain| - 1].Original().Readable?
    ensures forall i :: 0 <= i < |chain| - 1 ==> chain[i].Kind() != Tweet
  {
    match item.Original()
    case Readable(inner) =>
      var nested := if item.Kind() == Retweet then item.data["retweeted_status"]
                    else item.data["status"];
      assert nested == Obj(inner.data);
      [inner] + Originals(inner)
    case _ => []
  }

  /** Whether a nested value ends a chain of originals by raising: `TweetItem(v)` returns at
      once for a falsy `v`, and raises for a truthy value that is not a record, on its first
      property read. */
  predicate RaisesOnWrap(w: Wrapped<TweetItem>)
  {
    w.Unreadable? && Truthy(Some(w.raw))
  }

  /** Whether `TweetItem(record)` can be built. A non-empty record's role table is filled in
      the constructor by reading every property: `url` raises when the author is present but
      not a record, and `original` builds the nested item, which raises as `RaisesOnWrap`
      says or when building it raises in turn. An empty record builds no role table, and
      its `url` and `original` are harmless anyway. */
  predicate Constructs(env: Collaborators, item: TweetItem)
    decreases Obj(item.data)
  {
    item.Url(env).Some? &&
    match item.Original()
    case Readable(inner) =>
      var nested := if item.Kind() == Retweet then item.data["retweeted_status"]
                    else item.data["status"];
      assert nested == Obj(inner.data);
      Constructs(env, inner)
    case w => !RaisesOnWrap(w)
  }

  /** Every item of `items` has a status page: its author is a record or absent. */
  predicate AllHavePages(env: Collaborators, items: seq<TweetItem>)
  {
    forall i :: 0 <= i < |items| ==> items[i].Url(env).Some?
  }

  lemma AllHavePagesCons(env: Collaborators, x: TweetItem, items: seq<TweetItem>)
    ensures AllHavePages(env, [x] + items) <==> x.Url(env).Some? && AllHavePages(env, items)
  {
    var s := [x] + items;
    if x.Url(env).Some? && AllHavePages(env, items) {
      forall i | 0 <= i < |s| ensures s[i].Url(env).Some? {
        if i > 0 {
          assert s[i] == items[i - 1];
        }
      }
    }
    if AllHavePages(env, s) {
      assert s[0] == x;
      forall i | 0 <= i < |items| ensures items[i].Url(env).Some? {
        assert s[i + 1] == items[i];
      }
    }
  }

  /** Building an item succeeds exactly when every item along its chain of originals has an
      author that is a record or none at all, and the chain does not end in a truthy value
      that is not a record. */
  lemma {:induction false} ConstructsAlongOriginals(env: Collaborators, item: TweetItem)
    decreases Obj(item.data)
    ensures var chain := [item] + Originals(item);
            Constructs(env, item) <==>
              AllHavePages(env, chain) && !RaisesOnWrap(chain[|chain| - 1].Original())
  {
    match item.Original()
    case Readable(inner) =>
      var nested := if item.Kind() == Retweet then item.data["retweeted_status"]
                    else item.data["status"];
      assert nested == Obj(inner.data);
      ConstructsAlongOriginals(env, inner);
      var tail := [inner] + Originals(inner);
      assert [item] + Originals(item) == [item] + tail;
      AllHavePagesCons(env, item, tail);
    case _ =>
  }

  /** The record that leaves out the author's fields (`"user": null`) cannot be wrapped, a
      retweet whose retweeted status was deleted to null can, a comment on a status given as
      text cannot, and a failure deep inside a nested original fails the outer record. */
  lemma ConstructionExamples(env: Collaborators)
    ensures !Constructs(env, TweetItem(map["idstr" := Value.Text("1"),
                                           "mid" := Value.Text("5"), "user" := Null]))
    ensures Constructs(env, TweetItem(map["retweeted_status" := Null]))
    ensures !Constructs(env, TweetItem(map["status" := Value.Text("gone")]))
    ensures !Constructs(env, TweetItem(map["retweeted_status" :=
                                           Obj(map["status" := Obj(map["user" := Int(7)])])]))
  {
    var deep := TweetItem(map["retweeted_status" :=
                                Obj(map["status" := Obj(map["user" := Int(7)])])]);
    assert deep.Original() == Readable(TweetItem(map["status" := Obj(map["user" := Int(7)])]));
  }
}
