/** The streaming JSON writer (src/common/json.c): output is appended call by call, and a
    small stack of flags decides where commas go.
 */
module JsonWriter {
  import opened Strings
  import opened Json

  const JSON_MAX_DEPTH := 5

  /** Backslashes before quotes and backslashes, in a buffer of twice the length and three. */
  method MakeString(s: string) returns (token: string)
    ensures token == Quote(s)
  {
    var escaped := new char[2 * |s| + 3];
    escaped[0] := '"';
    var i := 1;
    for k := 0 to |s|
      invariant 1 <= i <= 2 * k + 1
      invariant escaped[..i] == "\"" + Escape(s[..k])
    {
      EscapeSnoc(s, k);
      if s[k] == '"' || s[k] == '\\' {
        escaped[i] := '\\';
        i := i + 1;
      }
      escaped[i] := s[k];
      i := i + 1;
    }
    assert s[..|s|] == s;
    escaped[i] := '"';
    escaped[i + 1] := NUL;
    token := escaped[..i + 1];
  }

  lemma EscapeSnoc(s: string, k: nat)
    requires k < |s|
    ensures Escape(s[..k + 1]) == Escape(s[..k]) + (if s[k] == '"' || s[k] == '\\' then ['\\', s[k]] else [s[k]])
  {
    assert s[..k + 1] == s[..k] + [s[k]];
    EscapeAppend(s[..k], s[k]);
  }

  lemma {:induction false} EscapeAppend(s: string, c: char)
    ensures Escape(s + [c]) == Escape(s) + (if c == '"' || c == '\\' then ['\\', c] else [c])
  {
    if s == "" {
      assert s + [c] == [c];
    } else {
      assert (s + [c])[1..] == s[1..] + [c];
      EscapeAppend(s[1..], c);
    }
  }

  class Writer {
    var out: string
    const ss: array<int>
    var sp: int

    constructor ()
      ensures Valid() && fresh(ss) && out == "" && sp == 0
    {
      out := "";
      ss := new int[JSON_MAX_DEPTH];
      sp := 0;
    }

    ghost predicate Valid()
      reads this
    {
      ss.Length == JSON_MAX_DEPTH && 0 <= sp < JSON_MAX_DEPTH
    }

    /** What a call leaves alone: every flag up to the current one. */
    twostate predicate FlagsKept()
      reads this, ss
      requires old(Valid()) && Valid()
    {
      old(sp) <= sp && forall i | 0 <= i <= old(sp) :: ss[i] == old(ss[i])
    }

    method PushNesting()
      requires Valid()
      modifies `sp, ss
      ensures Valid() && out == old(out)
      ensures old(sp) + 1 < JSON_MAX_DEPTH ==> sp == old(sp) + 1 && ss[sp] == 0 && FlagsKept()
      ensures old(sp) + 1 >= JSON_MAX_DEPTH ==> sp == old(sp) && ss[..] == old(ss[..])
    {
      if sp + 1 >= JSON_MAX_DEPTH {
        // the source logs an error and goes on
      } else {
        sp := sp + 1;
        ss[sp] := 0;
      }
    }

    method StartArray()
      requires Valid()
      modifies this, ss
      ensures Valid() && out == old(out) + "["
      ensures old(sp) + 1 < JSON_MAX_DEPTH ==> sp == old(sp) + 1 && ss[sp] == 0 && FlagsKept()
    {
      out := out + "[";
      PushNesting();
      ss[sp] := 0;
    }

    method EndArray()
      modifies this
      ensures out == old(out) + "]" && sp == old(sp) - 1
    {
      out := out + "]";
      sp := sp - 1;
    }

    method StartObject()
      requires Valid()
      modifies this, ss
      ensures Valid() && out == old(out) + "{"
      ensures old(sp) + 1 < JSON_MAX_DEPTH ==> sp == old(sp) + 1 && ss[sp] == 0 && FlagsKept()
    {
      out := out + "{";
      PushNesting();
    }

    method EndObject()
      modifies this
      ensures out == old(out) + "}" && sp == old(sp) - 1
    {
      out := out + "}";
      sp := sp - 1;
    }

    method WriteString(s: string)
      modifies `out
      ensures out == old(out) + Quote(s)
    {
      var token := MakeString(s);
      out := out + token;
    }

    /** A comma unless this is the first key of its object. */
    method WriteKey(key: string)
      requires Valid() && ss[sp] in {0, 1}
      modifies `out, ss
      ensures Valid() && ss[sp] == 1 && forall i | 0 <= i < sp :: ss[i] == old(ss[i])
      ensures out == old(out) + (if old(ss[sp]) == 1 then "," else "") + Quote(key) + ":"
    {
      if ss[sp] == 1 {
        out := out + ",";
      } else if ss[sp] == 0 {
        ss[sp] := 1;
      }
      WriteString(key);
      out := out + ":";
    }

    method WriteKeyVal(key: string, val: string)
      requires Valid() && ss[sp] in {0, 1}
      modifies `out, ss
      ensures Valid() && ss[sp] == 1 && forall i | 0 <= i < sp :: ss[i] == old(ss[i])
      ensures out == old(out) + (if old(ss[sp]) == 1 then "," else "") + PrintMember(Member(key, Str(val)))
    {
      WriteKey(key);
      WriteString(val);
    }

    /** A client that writes any document within the depth limit: the output grows by
        the document's text, and the nesting stack is back where it was. */
    method Write(d: Json)
      requires Valid() && sp + Depth(d) < JSON_MAX_DEPTH
      modifies this, ss
      ensures Valid() && out == old(out) + Print(d)
      ensures sp == old(sp) && FlagsKept()
      decreases d, 0
    {
      hide Quote, PrintElems, PrintMembers;
      match d {
        case Str(s) =>
          WriteString(s);
        case Arr(elems) =>
          StartArray();
          WriteElems(elems);
          EndArray();
        case Obj(members) =>
          StartObject();
          WriteMembers(members);
          EndObject();
      }
    }

    method WriteElems(elems: seq<Json>)
      requires Valid() && sp + ElemsDepth(elems) < JSON_MAX_DEPTH
      modifies this, ss
      ensures Valid() && out == old(out) + PrintElems(elems)
      ensures sp == old(sp) && FlagsKept()
      decreases elems, 1
    {
      if elems != [] {
        Write(elems[0]);
        label First:
        WriteElems(elems[1..]);
        assert out == old(out) + (Print(elems[0]) + PrintElems(elems[1..])) by {
          assert out == old@First(out) + PrintElems(elems[1..]);
        }
      }
    }

    method WriteMember(m: Member)
      requires Valid() && sp + Depth(m.value) < JSON_MAX_DEPTH
      requires ss[sp] in {0, 1}
      modifies this, ss
      ensures Valid() && sp == old(sp) && ss[sp] == 1 && forall i | 0 <= i < sp :: ss[i] == old(ss[i])
      ensures out == old(out) + (if old(ss[sp]) == 1 then "," else "") + PrintMember(m)
      decreases m, 1
    {
      WriteKey(m.key);
      Write(m.value);
    }

    method WriteMembers(members: seq<Member>)
      requires Valid() && sp + MembersDepth(members) < JSON_MAX_DEPTH
      requires ss[sp] in {0, 1}
      modifies this, ss
      ensures Valid()
      ensures out == old(out) + (if old(ss[sp]) == 1 && members != [] then "," else "") + PrintMembers(members)
      ensures sp == old(sp) && forall i | 0 <= i < sp :: ss[i] == old(ss[i])
      decreases members, 1
    {
      hide PrintMember;
      if members != [] {
        WriteMember(members[0]);
        label First:
        WriteMembers(members[1..]);
        assert out == old@First(out) + (if |members| > 1 then "," else "") + PrintMembers(members[1..]);
      }
    }
  }

  // ----- the text of an object, member by member -----

  lemma {:induction false} PrintSnoc(done: seq<Member>, m: Member)
    ensures PrintMembers(done + [m]) == PrintMembers(done) + (if done == [] then "" else ",") + PrintMember(m)
  {
    hide PrintMember;
    if done == [] {
      assert done + [m] == [m];
    } else {
      var rest := done[1..];
      PrintSnoc(rest, m);
      assert (done + [m])[1..] == rest + [m];
      if rest == [] {
        assert done == [done[0]];
      }
    }
  }

  /** What the output holds of an object whose members `done` are written. */
  ghost predicate Written(before: string, done: seq<Member>, out: string) {
    out == before + "{" + PrintMembers(done)
  }

  lemma Extend(before: string, done: seq<Member>, m: Member, out: string)
    requires Written(before, done, out)
    ensures Written(before, done + [m], out + (if done == [] then "" else ",") + PrintMember(m))
  {
    hide PrintMember, PrintMembers;
    PrintSnoc(done, m);
  }

  lemma Opened(before: string, members: seq<Member>)
    ensures Written(before, members[..0], before + "{")
  {
  }

  /** A finished object in the output. */
  lemma Closed(before: string, members: seq<Member>, out: string)
    requires Written(before, members[..|members|], out)
    ensures out + "}" == before + Print(Obj(members))
  {
    hide PrintMembers;
    assert members[..|members|] == members;
  }

  /** The next member of the current object, its value a string. */
  method Add(w: Writer, ghost before: string, ghost members: seq<Member>, ghost k: nat, key: string, val: string)
    requires w.Valid() && w.ss[w.sp] == (if k == 0 then 0 else 1)
    requires k < |members| && members[k] == Member(key, Str(val))
    requires Written(before, members[..k], w.out)
    modifies w`out, w.ss
    ensures w.Valid() && w.ss[w.sp] == 1 && forall i | 0 <= i < w.sp :: w.ss[i] == old(w.ss[i])
    ensures Written(before, members[..k + 1], w.out)
  {
    hide PrintMember, PrintMembers;
    Extend(before, members[..k], members[k], w.out);
    w.WriteKeyVal(key, val);
    assert members[..k] + [members[k]] == members[..k + 1];
  }

  /** A key followed by the text of its value is the next member. */
  lemma NestedMember(before: string, members: seq<Member>, k: nat, done: string, out: string)
    requires k < |members| && Written(before, members[..k], done)
    requires out == done + (if k == 0 then "" else ",") + Quote(members[k].key) + ":" + Print(members[k].value)
    ensures Written(before, members[..k + 1], out)
  {
    hide PrintMembers, Print, Quote;
    Extend(before, members[..k], members[k], done);
    assert members[..k] + [members[k]] == members[..k + 1];
  }

  /** The array that holds one object. */
  lemma PrintOne(d: Json)
    ensures Print(Arr([d])) == "[" + Print(d) + "]"
  {
    hide PrintMembers;
    assert PrintElems([d]) == Print(d) + PrintElems([d][1..]);
    assert PrintElems([d][1..]) == "";
  }
}
