/** The Webfinger handler (src/handler/webfinger.c), a client of the JSON writer. */
module Webfinger {
  import opened Strings
  import opened Json
  import opened JsonWriter
  import opened Users

  const RS_STORAGE_API := "draft-dejong" + "-remotestorage-01"
  const RS_AUTH_METHOD := "http://tools." + "ietf.org/html" + "/rfc6749#section-4.2"
  const ACCT := "acct:"

  datatype Config = Config(scheme: string, hostname: string, authUri: string -> string,
                           getpwnam: string -> Lookup, unescape: string -> Option<string>)
  {
    function LrddTemplate(): string {
      scheme + "://" + hostname + "/.well-known/webfinger?resource={uri}"
    }

    function StorageUri(user: string): string {
      scheme + "://" + hostname + "/storage/" + user
    }
  }

  datatype Method = GET | OPTIONS | OtherMethod

  /** The user named by an account resource on this host. */
  ghost predicate Names(config: Config, resource: string, user: string) {
    && config.unescape(resource) == Some(ACCT + user + "@" + config.hostname)
    && '@' !in user
  }

  /** Takes an account resource apart at its first '@'. */
  method ProcessResource(config: Config, resource: string) returns (user: Option<string>)
    ensures user.Some? <==>
            exists u :: Names(config, resource, u) && UidAllowed(UserGetUid(config.getpwnam(u)))
    ensures user.Some? ==> Names(config, resource, user.value)
  {
    var unescaped := config.unescape(resource);
    if unescaped == None {
      return None;
    }
    var buffer := unescaped.value;
    if !StartsWith(buffer, ACCT) {
      NotAnAccount(config, resource, buffer);
      return None;
    }
    var ptr := |ACCT|;
    while ptr < |buffer| && buffer[ptr] != '@'
      invariant |ACCT| <= ptr <= |buffer|
      invariant '@' !in buffer[|ACCT|..ptr]
    {
      ptr := ptr + 1;
    }
    if ptr < |buffer| {
      var local := buffer[|ACCT|..ptr];
      var hostname := buffer[ptr + 1..];
      assert buffer == ACCT + local + "@" + hostname;
      SplitIsUnique(config, resource, local, hostname);
      if hostname == config.hostname {
        if UidAllowed(UserGetUid(config.getpwnam(local))) {
          return Some(local);
        }
      }
    } else {
      NoAt(config, resource, buffer);
    }
    return None;
  }

  lemma NotAnAccount(config: Config, resource: string, buffer: string)
    requires config.unescape(resource) == Some(buffer) && !(ACCT <= buffer)
    ensures forall u :: !Names(config, resource, u)
  {
    forall u ensures !Names(config, resource, u) {
      var account := ACCT + u + "@" + config.hostname;
      assert account[..5] == ACCT;
    }
  }

  lemma NoAt(config: Config, resource: string, buffer: string)
    requires config.unescape(resource) == Some(buffer)
    requires ACCT <= buffer && '@' !in buffer[|ACCT|..]
    ensures forall u :: !Names(config, resource, u)
  {
    forall u ensures !Names(config, resource, u) {
      var account := ACCT + u + "@" + config.hostname;
      assert account[|ACCT|..][|u|] == '@';
    }
  }

  lemma SplitIsUnique(config: Config, resource: string, local: string, hostname: string)
    requires config.unescape(resource) == Some(ACCT + local + "@" + hostname) && '@' !in local
    ensures forall u :: Names(config, resource, u) <==> u == local && hostname == config.hostname
  {
    forall u | Names(config, resource, u)
      ensures u == local && hostname == config.hostname
    {
      var a, b := ACCT + local + "@" + hostname, ACCT + u + "@" + config.hostname;
      SpanUntilIs(a[5..], '@', |local|);
      SpanUntilIs(b[5..], '@', |u|);
      assert a[5..5 + |local|] == local && b[5..5 + |u|] == u;
      assert a[6 + |local|..] == hostname && b[6 + |u|..] == config.hostname;
    }
  }

  // ----- the documents -----

  function PropertiesMembers(config: Config, user: string): seq<Member> {
    [
      Member(RS_AUTH_METHOD, Str(config.authUri(user))),
      Member("auth-method", Str(RS_AUTH_METHOD)),
      Member("auth-endpoint", Str(config.authUri(user)))
    ]
  }

  function LinkMembers(config: Config, user: string): seq<Member> {
    [
      Member("rel", Str("remotestorage")),
      Member("type", Str(RS_STORAGE_API)),
      Member("href", Str(config.StorageUri(user))),
      Member("properties", Obj(PropertiesMembers(config, user)))
    ]
  }

  /** The answer for a user. */
  function UserMembers(config: Config, resource: string, user: string): seq<Member> {
    [Member("subject", Str(resource)), Member("links", Arr([Obj(LinkMembers(config, user))]))]
  }

  function HostLinkMembers(config: Config): seq<Member> {
    [Member("rel", Str("lrdd")), Member("template", Str(config.LrddTemplate()))]
  }

  /** The answer without a resource. */
  function HostMembers(config: Config): seq<Member> {
    [Member("subject", Str(config.hostname)), Member("links", Arr([Obj(HostLinkMembers(config))]))]
  }

  // ----- writing them -----

  /** The "properties" object of a user's link. */
  method WriteProperties(w: Writer, config: Config, user: string)
    requires w.Valid() && w.sp == 3
    modifies w, w.ss
    ensures w.Valid() && w.sp == 3 && w.FlagsKept()
    ensures w.out == old(w.out) + Print(Obj(PropertiesMembers(config, user)))
  {
    hide PrintMember, PrintMembers, Print;
    var authUri := config.authUri(user);
    ghost var before, members := w.out, PropertiesMembers(config, user);
    w.StartObject();
    Opened(before, members);
    Add(w, before, members, 0, RS_AUTH_METHOD, authUri);
    Add(w, before, members, 1, "auth-method", RS_AUTH_METHOD);
    Add(w, before, members, 2, "auth-endpoint", authUri);
    Closed(before, members, w.out);
    w.EndObject();
  }

  method WriteLink(w: Writer, config: Config, user: string)
    requires w.Valid() && w.sp == 2
    modifies w, w.ss
    ensures w.Valid() && w.sp == 2 && w.FlagsKept()
    ensures w.out == old(w.out) + Print(Obj(LinkMembers(config, user)))
  {
    hide PrintMember, PrintMembers, Print, Quote, Written, PropertiesMembers, Config.StorageUri;
    ghost var before, members := w.out, LinkMembers(config, user);
    w.StartObject();
    Opened(before, members);
    Add(w, before, members, 0, "rel", "remotestorage");
    Add(w, before, members, 1, "type", RS_STORAGE_API);
    Add(w, before, members, 2, "href", config.StorageUri(user));
    ghost var done := w.out;
    w.WriteKey("properties");
    WriteProperties(w, config, user);
    NestedMember(before, members, 3, done, w.out);
    Closed(before, members, w.out);
    w.EndObject();
  }

  method WriteUser(w: Writer, ghost before: string, config: Config, resource: string, user: string)
    requires w.Valid() && w.sp == 1 && w.ss[1] == 0 && w.out == before + "{"
    modifies w, w.ss
    ensures w.Valid() && w.sp == 1
    ensures w.out + "}" == before + Print(Obj(UserMembers(config, resource, user)))
  {
    hide PrintMember, PrintMembers, Print, Quote, Written, LinkMembers;
    ghost var members := UserMembers(config, resource, user);
    Opened(before, members);
    Add(w, before, members, 0, "subject", resource);
    ghost var done := w.out;
    w.WriteKey("links");
    w.StartArray();
    WriteLink(w, config, user);
    w.EndArray();
    PrintOne(Obj(LinkMembers(config, user)));
    NestedMember(before, members, 1, done, w.out);
    Closed(before, members, w.out);
  }

  method WriteHostLink(w: Writer, config: Config)
    requires w.Valid() && w.sp == 2
    modifies w, w.ss
    ensures w.Valid() && w.sp == 2 && w.FlagsKept()
    ensures w.out == old(w.out) + Print(Obj(HostLinkMembers(config)))
  {
    hide PrintMember, PrintMembers, Print;
    ghost var before, members := w.out, HostLinkMembers(config);
    w.StartObject();
    Opened(before, members);
    Add(w, before, members, 0, "rel", "lrdd");
    Add(w, before, members, 1, "template", config.LrddTemplate());
    Closed(before, members, w.out);
    w.EndObject();
  }

  method WriteHost(w: Writer, ghost before: string, config: Config)
    requires w.Valid() && w.sp == 1 && w.ss[1] == 0 && w.out == before + "{"
    modifies w, w.ss
    ensures w.Valid() && w.sp == 1
    ensures w.out + "}" == before + Print(Obj(HostMembers(config)))
  {
    hide PrintMember, PrintMembers, Print, Quote, Written, HostLinkMembers;
    ghost var members := HostMembers(config);
    Opened(before, members);
    Add(w, before, members, 0, "subject", config.hostname);
    ghost var done := w.out;
    w.WriteKey("links");
    w.StartArray();
    WriteHostLink(w, config);
    w.EndArray();
    PrintOne(Obj(HostLinkMembers(config)));
    NestedMember(before, members, 1, done, w.out);
    Closed(before, members, w.out);
  }

  // ----- the handler -----

  /** The resource names an account on this host whose number passes the check. */
  ghost predicate Answered(config: Config, resource: string) {
    exists u :: Names(config, resource, u) && UidAllowed(UserGetUid(config.getpwnam(u)))
  }

  /** The document a GET is answered with. */
  ghost predicate IsAnswer(config: Config, resource: Option<string>, answer: Json) {
    match resource
    case None => answer == Obj(HostMembers(config))
    case Some(r) =>
      if Answered(config, r) then
        exists u :: Names(config, r, u) && answer == Obj(UserMembers(config, r, u))
      else answer == Obj([])
  }

  /** The body of a GET is the text of its answer, 404 goes with the empty object, and the
      nesting stack ends where it began. */
  method HandleWebfinger(config: Config, verb: Method, resource: Option<string>)
    returns (status: int, body: string, ghost answer: Json)
    ensures verb == GET ==> IsAnswer(config, resource, answer) && body == Print(answer) && Depth(answer) < JSON_MAX_DEPTH
    ensures verb == GET ==> status == if resource.Some? && !Answered(config, resource.value) then 404 else 200
    ensures verb != GET ==> status == (if verb == OPTIONS then 204 else 405) && body == ""
  {
    hide PropertiesMembers, LinkMembers, UserMembers, HostLinkMembers, HostMembers;
    body, answer := "", Obj([]);
    match verb {
      case GET =>
        var w := new Writer();
        w.StartObject();
        match resource {
          case Some(r) =>
            var user := ProcessResource(config, r);
            match user {
              case None =>
                status := 404;
              case Some(u) =>
                WriteUser(w, "", config, r, u);
                UserDepth(config, r, u);
                answer := Obj(UserMembers(config, r, u));
                status := 200;
            }
          case None =>
            WriteHost(w, "", config);
            HostDepth(config);
            answer := Obj(HostMembers(config));
            status := 200;
        }
        w.EndObject();
        assert w.sp == 0;
        body := w.out;
      case OPTIONS =>
        status := 204;
      case OtherMethod =>
        status := 405;
    }
  }

  // ----- depth -----

  lemma {:induction false} DepthIsMax(members: seq<Member>, k: nat)
    requires k < |members|
    requires forall m | m in members :: Depth(m.value) <= Depth(members[k].value)
    ensures MembersDepth(members) == Depth(members[k].value)
  {
    DepthAtMost(members, Depth(members[k].value));
    if k > 0 {
      DepthAtMost(members[..k], Depth(members[k].value));
      DepthAtLeast(members, k);
    }
  }

  lemma {:induction false} DepthAtMost(members: seq<Member>, bound: nat)
    requires forall m | m in members :: Depth(m.value) <= bound
    ensures MembersDepth(members) <= bound
  {
    if members != [] { DepthAtMost(members[1..], bound); }
  }

  lemma {:induction false} DepthAtLeast(members: seq<Member>, k: nat)
    requires k < |members|
    ensures Depth(members[k].value) <= MembersDepth(members)
  {
    if k > 0 { DepthAtLeast(members[1..], k - 1); }
  }

  lemma ArrayDepth(d: Json)
    ensures Depth(Arr([d])) == 1 + Depth(d)
  {
    assert ElemsDepth([d]) == Max(Depth(d), ElemsDepth([d][1..]));
    assert ElemsDepth([d][1..]) == 0;
  }

  /** The user document reaches the writer's limit exactly. */
  lemma UserDepth(config: Config, resource: string, user: string)
    ensures Depth(Obj(UserMembers(config, resource, user))) == JSON_MAX_DEPTH - 1
  {
    DepthIsMax(PropertiesMembers(config, user), 0);
    DepthIsMax(LinkMembers(config, user), 3);
    ArrayDepth(Obj(LinkMembers(config, user)));
    DepthIsMax(UserMembers(config, resource, user), 1);
  }

  lemma HostDepth(config: Config)
    ensures Depth(Obj(HostMembers(config))) == 3
  {
    DepthIsMax(HostLinkMembers(config), 0);
    ArrayDepth(Obj(HostLinkMembers(config)));
    DepthIsMax(HostMembers(config), 1);
  }

  // ----- what a client can parse -----

  lemma CleanAppend(a: string, b: string)
    requires Clean(a) && Clean(b)
    ensures Clean(a + b)
  {
  }

  lemma ConstantsAreClean()
    ensures Clean(RS_AUTH_METHOD) && Clean(RS_STORAGE_API)
    ensures Clean("auth-method") && Clean("auth-endpoint") && Clean("properties") && Clean("subject") && Clean("links")
    ensures Clean("rel") && Clean("type") && Clean("href") && Clean("template") && Clean("lrdd") && Clean("remotestorage")
  {
    hide Clean;
    AuthMethodIsClean();
    StorageApiIsClean();
    WordsAreClean();
  }

  lemma AuthMethodIsClean()
    ensures Clean(RS_AUTH_METHOD)
  {
    CleanAppend("http://tools.", "ietf.org/html");
    CleanAppend("http://tools." + "ietf.org/html", "/rfc6749#section-4.2");
  }

  lemma StorageApiIsClean()
    ensures Clean(RS_STORAGE_API)
  {
    CleanAppend("draft-dejong", "-remotestorage-01");
  }

  lemma WordsAreClean()
    ensures Clean("auth-method") && Clean("auth-endpoint") && Clean("properties") && Clean("subject") && Clean("links")
    ensures Clean("rel") && Clean("type") && Clean("href") && Clean("template") && Clean("lrdd") && Clean("remotestorage")
  {
  }

  lemma PropertiesSupported(config: Config, user: string)
    ensures Supported(Obj(PropertiesMembers(config, user))) <==> Clean(config.authUri(user))
  {
    ConstantsAreClean();
    var m := PropertiesMembers(config, user);
    assert m[0] in m;
  }

  lemma LinkSupported(config: Config, user: string)
    ensures Supported(Obj(LinkMembers(config, user))) <==> Clean(config.StorageUri(user)) && Clean(config.authUri(user))
  {
    hide PropertiesMembers;
    ConstantsAreClean();
    PropertiesSupported(config, user);
    var m := LinkMembers(config, user);
    assert m[2] in m && m[3] in m;
  }

  /** Every part of the user document that is not a constant. */
  predicate UserClean(config: Config, resource: string, user: string) {
    Clean(resource) && Clean(config.StorageUri(user)) && Clean(config.authUri(user))
  }

  lemma UserSupported(config: Config, resource: string, user: string)
    ensures Supported(Obj(UserMembers(config, resource, user))) <==> UserClean(config, resource, user)
  {
    hide LinkMembers;
    ConstantsAreClean();
    LinkSupported(config, user);
    var link := Obj(LinkMembers(config, user));
    assert Supported(Arr([link])) <==> Supported(link) by { assert link in [link]; }
    var m := UserMembers(config, resource, user);
    assert m[0] in m && m[1] in m;
  }

  lemma HostSupported(config: Config)
    ensures Supported(Obj(HostMembers(config))) <==> Clean(config.hostname) && Clean(config.LrddTemplate())
  {
    ConstantsAreClean();
    var link := Obj(HostLinkMembers(config));
    assert Supported(link) <==> Clean(config.LrddTemplate()) by { assert HostLinkMembers(config)[1] in HostLinkMembers(config); }
    assert Supported(Arr([link])) <==> Supported(link) by { assert link in [link]; }
    var m := HostMembers(config);
    assert m[0] in m && m[1] in m;
  }

  /** The strings of an answer that come from outside have no control characters. */
  ghost predicate AnswerClean(config: Config, resource: Option<string>) {
    match resource
    case None => Clean(config.hostname) && Clean(config.LrddTemplate())
    case Some(r) => forall u | Names(config, r, u) && Answered(config, r) :: UserClean(config, r, u)
  }

  /** The body of a GET parses back to the answer exactly if those strings are clean. */
  lemma AnswerRoundTrip(config: Config, resource: Option<string>, answer: Json)
    requires IsAnswer(config, resource, answer)
    ensures ParseValue(Print(answer)) == Some((answer, "")) <==> AnswerClean(config, resource)
  {
    hide UserMembers, HostMembers, ParseValue;
    PrintRoundTrip(answer, "");
    assert Print(answer) + "" == Print(answer);
    match resource {
      case None =>
        HostSupported(config);
      case Some(r) =>
        if Answered(config, r) {
          var u :| Names(config, r, u) && answer == Obj(UserMembers(config, r, u));
          UserSupported(config, r, u);
          forall v | Names(config, r, v) ensures v == u {
            SplitIsUnique(config, r, u, config.hostname);
          }
        }
    }
  }

  /** The numbers of failed lookups pass the check, so a resource is answered with 200
      also when its user does not exist: only existing system users are refused. */
  lemma AnsweredIff(config: Config, resource: string, user: string)
    requires Names(config, resource, user)
    ensures Answered(config, resource) <==>
            config.getpwnam(user).Found? ==> config.getpwnam(user).uid >= RS_MIN_UID
  {
    SplitIsUnique(config, resource, user, config.hostname);
  }

  // ----- the documents, field by field -----

  /** The object has this value under this key, and no other. */
  predicate HasField(d: Json, key: string, value: Json) {
    d.Obj? && Member(key, value) in d.members && forall m | m in d.members :: m.key == key ==> m.value == value
  }

  /** What a client finds in the answer for a user. */
  lemma UserFields(config: Config, resource: string, user: string) returns (link: Json, properties: Json)
    ensures var answer := Obj(UserMembers(config, resource, user));
            && HasField(answer, "subject", Str(resource))
            && HasField(answer, "links", Arr([link]))
            && HasField(link, "rel", Str("remotestorage"))
            && HasField(link, "type", Str(RS_STORAGE_API))
            && HasField(link, "href", Str(config.scheme + "://" + config.hostname + "/storage/" + user))
            && HasField(link, "properties", properties)
            && HasField(properties, RS_AUTH_METHOD, Str(config.authUri(user)))
            && HasField(properties, "auth-method", Str(RS_AUTH_METHOD))
            && HasField(properties, "auth-endpoint", Str(config.authUri(user)))
  {
    PropertyFields(config, user);
    LinkFields(config, user);
    hide PropertiesMembers, LinkMembers, HasField;
    link, properties := Obj(LinkMembers(config, user)), Obj(PropertiesMembers(config, user));
    assert "subject"[0] == 's' && "links"[0] == 'l';
    TwoFields("subject", Str(resource), "links", Arr([link]));
  }

  lemma TwoFields(k1: string, v1: Json, k2: string, v2: Json)
    requires k1 != k2
    ensures HasField(Obj([Member(k1, v1), Member(k2, v2)]), k1, v1)
    ensures HasField(Obj([Member(k1, v1), Member(k2, v2)]), k2, v2)
  {
    var m := [Member(k1, v1), Member(k2, v2)];
    assert m[0] in m && m[1] in m;
  }

  lemma PropertyFields(config: Config, user: string)
    ensures var d := Obj(PropertiesMembers(config, user));
            && HasField(d, RS_AUTH_METHOD, Str(config.authUri(user)))
            && HasField(d, "auth-method", Str(RS_AUTH_METHOD))
            && HasField(d, "auth-endpoint", Str(config.authUri(user)))
  {
    var m := PropertiesMembers(config, user);
    assert m[0] in m && m[1] in m && m[2] in m;
    assert RS_AUTH_METHOD[0] == 'h' && "auth-method"[0] == 'a' && "auth-endpoint"[0] == 'a' && "auth-method"[5] != "auth-endpoint"[5];
  }

  lemma LinkFields(config: Config, user: string)
    ensures var d := Obj(LinkMembers(config, user));
            && HasField(d, "rel", Str("remotestorage"))
            && HasField(d, "type", Str(RS_STORAGE_API))
            && HasField(d, "href", Str(config.scheme + "://" + config.hostname + "/storage/" + user))
            && HasField(d, "properties", Obj(PropertiesMembers(config, user)))
  {
    hide PropertiesMembers;
    var m := LinkMembers(config, user);
    assert m[0] in m && m[1] in m && m[2] in m && m[3] in m;
    assert "rel"[0] == 'r' && "type"[0] == 't' && "href"[0] == 'h' && "properties"[0] == 'p';
  }

  /** What a client finds in the answer without a resource. */
  lemma HostFields(config: Config) returns (link: Json)
    ensures var answer := Obj(HostMembers(config));
            && HasField(answer, "subject", Str(config.hostname))
            && HasField(answer, "links", Arr([link]))
            && HasField(link, "rel", Str("lrdd"))
            && HasField(link, "template", Str(config.scheme + "://" + config.hostname + "/.well-known/webfinger?resource={uri}"))
  {
    link := Obj(HostLinkMembers(config));
    assert "subject"[0] == 's' && "links"[0] == 'l' && "rel"[0] == 'r' && "template"[0] == 't';
    TwoFields("rel", Str("lrdd"), "template", Str(config.LrddTemplate()));
    TwoFields("subject", Str(config.hostname), "links", Arr([link]));
  }
}
