/** The blog's on-demand revalidation endpoint,
    apps/blog/app/api/revalidate/route.ts: a secret check, then the cache
    invalidations and the JSON reply, as one decision from the configured
    secret, the `secret` query parameter and the request body. The two
    cache calls are emitted as a list of actions. */
module Revalidate {

  import opened Wrappers

  /** The `slug` member of the parsed body: missing, a string, or some
      other JSON value, with its truthiness and the text a template literal
      shows for it. `shown` is `None` when that conversion throws, as it
      does for an object whose `toString` member is not callable, such as
      `{"toString": 1}` (`valueOf` then gives the object itself). */
  datatype Slug = Absent | Text(s: string) | Other(truthy: bool, shown: Option<string>)

  /** The request body: text that does not parse as JSON, the JSON value
      `null`, or any other JSON value (a value that is not an object has no
      `slug`, so it is `Value(Absent)`). */
  datatype Body = Unparsable | Null | Value(slug: Slug)

  datatype Action = RevalidatePath(path: string) | RevalidateTag(tag: string)

  /** The reply: a JSON response, or the framework's 500 page when the
      handler throws. */
  datatype Reply =
    | Json(status: nat, ok: bool, message: Option<string>, revalidated: seq<string>)
    | InternalError

  datatype Outcome = Outcome(actions: seq<Action>, reply: Reply)

  const Rejected: Outcome := Outcome([], Json(401, false, Some("Invalid secret"), []))

  /** `process.env.SANITY_REVALIDATE_SECRET || ""`. */
  function ConfiguredSecret(env: Option<string>): (r: string)
    ensures env.Some? ==> r == env.value
    ensures env.None? ==> r == ""
  {
    env.GetOr("")
  }

  /** The secret check passes: a secret is configured and the request
      carries exactly it. */
  predicate Accepted(configured: string, supplied: Option<string>)
  {
    configured != "" && supplied == Some(configured)
  }

  /** JavaScript truthiness of `payload.slug`. */
  predicate Truthy(slug: Slug)
  {
    match slug
    case Absent => false
    case Text(s) => s != ""
    case Other(t, _) => t
  }

  /** `${payload.slug}`, or `None` when the conversion throws. */
  function Shown(slug: Slug): Option<string>
  {
    match slug
    case Absent => Some("undefined")
    case Text(s) => Some(s)
    case Other(_, shown) => shown
  }

  /** The slug passes the `if` and then cannot be shown: the template
      literal on the first line inside the `if` throws. */
  predicate ShowThrows(slug: Slug)
  {
    Truthy(slug) && Shown(slug).None?
  }

  /** The payload the handler reads: `{}` when the body does not parse,
      and also when it is `null`. */
  function SlugOf(body: Body): (r: Slug)
    ensures body.Value? ==> r == body.slug
    ensures !body.Value? ==> r == Absent
  {
    match body
    case Value(slug) => slug
    case _ => Absent
  }

  /** The invalidations and the reply for an accepted request with that
      slug. */
  function Revalidated(slug: Slug): Outcome
  {
    var base := [RevalidatePath("/blog"), RevalidateTag("post")];
    if Truthy(slug) then
      match Shown(slug)
      case None => Outcome(base, InternalError)
      case Some(t) =>
        Outcome(base + [RevalidatePath("/blog/" + t), RevalidateTag("post:" + t)],
                Json(200, true, None, ["/blog", "/blog/" + t]))
    else
      Outcome(base, Json(200, true, None, ["/blog"]))
  }

  /** `POST`, with a `null` body read as `{}`. An accepted request always
      invalidates `/blog` and `post` first; it fails only for a slug that
      cannot be shown, and replies 200 otherwise. */
  function Post(configured: string, supplied: Option<string>, body: Body): (o: Outcome)
    ensures !Accepted(configured, supplied) ==> o == Rejected
    ensures Accepted(configured, supplied) ==>
              |o.actions| >= 2 && o.actions[..2] == [RevalidatePath("/blog"), RevalidateTag("post")]
    ensures Accepted(configured, supplied) ==> (o.reply == InternalError <==> ShowThrows(SlugOf(body)))
    ensures Accepted(configured, supplied) && !ShowThrows(SlugOf(body)) ==>
              o.reply.Json? && o.reply.status == 200 && o.reply.ok && o.reply.message.None?
  {
    if !Accepted(configured, supplied) then Rejected else Revalidated(SlugOf(body))
  }

  /** `POST` as written: a `null` body is assigned to `payload`, the two
      unconditional invalidations run, and reading `payload.slug` then
      throws. */
  function PostAsWritten(configured: string, supplied: Option<string>, body: Body): (o: Outcome)
    ensures body != Null ==> o == Post(configured, supplied, body)
    ensures body == Null && Accepted(configured, supplied) ==> o.reply == InternalError
  {
    if !Accepted(configured, supplied) then Rejected
    else if body == Null then Outcome([RevalidatePath("/blog"), RevalidateTag("post")], InternalError)
    else Revalidated(SlugOf(body))
  }

  /** The paths among the actions, in order. */
  function Paths(actions: seq<Action>): (r: seq<string>)
    ensures |r| <= |actions|
  {
    if actions == [] then []
    else (if actions[0].RevalidatePath? then [actions[0].path] else []) + Paths(actions[1..])
  }

  // ---------------------------------------------------------------------
  // Properties

  /** Without a configured secret every request is refused and nothing
      is invalidated. */
  lemma EmptySecretRejects(supplied: Option<string>, body: Body)
    ensures Post("", supplied, body) == Rejected
    ensures Post("", supplied, body).actions == []
  {
  }

  /** A missing or different secret is refused and nothing is
      invalidated. */
  lemma WrongSecretRejects(configured: string, supplied: Option<string>, body: Body)
    requires supplied != Some(configured)
    ensures Post(configured, supplied, body) == Rejected
    ensures Post(configured, supplied, body).reply.status == 401
  {
  }

  /** A body that does not parse counts as `{}`. */
  lemma UnparsableIsEmpty(configured: string, supplied: Option<string>)
    ensures Post(configured, supplied, Unparsable) == Post(configured, supplied, Value(Absent))
  {
  }

  /** Without a truthy slug only the blog index and the post tag are
      invalidated, and the reply lists the index alone. */
  lemma NoSlugRevalidatesIndex(configured: string, body: Body)
    requires configured != "" && !Truthy(SlugOf(body))
    ensures Post(configured, Some(configured), body).actions == [RevalidatePath("/blog"), RevalidateTag("post")]
    ensures Post(configured, Some(configured), body).reply.revalidated == ["/blog"]
  {
  }

  /** A truthy slug that can be shown also invalidates its page and its
      tag, and the reply lists both pages. */
  lemma SlugRevalidatesPost(configured: string, body: Body)
    requires configured != "" && Truthy(SlugOf(body)) && !ShowThrows(SlugOf(body))
    ensures var t := Shown(SlugOf(body)).value;
      var o := Post(configured, Some(configured), body);
      o.actions == [RevalidatePath("/blog"), RevalidateTag("post"),
                    RevalidatePath("/blog/" + t), RevalidateTag("post:" + t)]
      && o.reply.revalidated == ["/blog", "/blog/" + t]
  {
  }

  lemma {:induction false} PathsSnoc(actions: seq<Action>, a: Action)
    ensures Paths(actions + [a]) == Paths(actions) + (if a.RevalidatePath? then [a.path] else [])
    decreases |actions|
  {
    if actions != [] {
      assert (actions + [a])[1..] == actions[1..] + [a];
      PathsSnoc(actions[1..], a);
    }
  }

  /** The reply lists exactly the paths that were invalidated, in the
      order of the calls. */
  lemma ReplyListsInvalidatedPaths(configured: string, supplied: Option<string>, body: Body)
    ensures Post(configured, supplied, body).reply.Json?
            <==> !(Accepted(configured, supplied) && ShowThrows(SlugOf(body)))
    ensures Post(configured, supplied, body).reply.Json? ==>
              Post(configured, supplied, body).reply.revalidated == Paths(Post(configured, supplied, body).actions)
  {
    var slug := SlugOf(body);
    var t := Shown(slug).GetOr("");
    var base := [RevalidatePath("/blog"), RevalidateTag("post")];
    PathsSnoc([RevalidatePath("/blog")], RevalidateTag("post"));
    assert Paths([RevalidatePath("/blog")]) == ["/blog"];
    assert Paths(base) == ["/blog"];
    PathsSnoc(base, RevalidatePath("/blog/" + t));
    PathsSnoc(base + [RevalidatePath("/blog/" + t)], RevalidateTag("post:" + t));
    assert base + [RevalidatePath("/blog/" + t), RevalidateTag("post:" + t)]
        == base + [RevalidatePath("/blog/" + t)] + [RevalidateTag("post:" + t)];
  }

  /** The handler as written fails on the body `null` after invalidating
      the index and the tag, where reading `null` as `{}` replies 200. */
  lemma NullBodyThrows(configured: string)
    requires configured != ""
    ensures PostAsWritten(configured, Some(configured), Null)
            == Outcome([RevalidatePath("/blog"), RevalidateTag("post")], InternalError)
    ensures Post(configured, Some(configured), Null)
            == Outcome([RevalidatePath("/blog"), RevalidateTag("post")], Json(200, true, None, ["/blog"]))
  {
  }

  /** A truthy slug that cannot be shown, such as `{"toString": 1}`, fails
      after the index and the tag were invalidated, in the handler as
      written and with `null` read as `{}` alike. */
  lemma UnshowableSlugThrows(configured: string, body: Body)
    requires configured != "" && ShowThrows(SlugOf(body))
    ensures PostAsWritten(configured, Some(configured), body)
            == Outcome([RevalidatePath("/blog"), RevalidateTag("post")], InternalError)
    ensures Post(configured, Some(configured), body) == PostAsWritten(configured, Some(configured), body)
  {
  }

  /** The body `{"slug": {"toString": 1}}`. */
  lemma ToStringSlugThrows(configured: string)
    requires configured != ""
    ensures PostAsWritten(configured, Some(configured), Value(Other(true, None))).reply == InternalError
  {
    UnshowableSlugThrows(configured, Value(Other(true, None)));
  }
}
