/**
 * `get_user_info` of chat_logger.py: one summary per user whose transcript
 * is not empty, taken from the transcript's latest record, then sorted by
 * the latest timestamp, newest first. Python's sort is stable, also with
 * `reverse=True`, so users with equal timestamps keep the order in which
 * the scan found them.
 */
module UserInfo {
  import opened Optional
  import opened Text
  import opened OrderedDict
  import opened ChatLog

  datatype Info = Info(
    userId: int,
    username: Option<string>,
    firstName: Option<string>,
    lastMessageTime: string,
    messageCount: nat)

  /** The summary of one non-empty transcript, read off its latest record. */
  function Summary(u: int, es: seq<Entry>): Info
    requires |es| > 0
  {
    var latest := es[|es| - 1];
    Info(u, latest.username, latest.firstName, latest.timestamp, |es|)
  }

  /** The summaries of the non-empty transcripts, in the dictionary's order. */
  function Summaries(chats: Chats): (r: seq<Info>)
    ensures |r| <= |chats|
    ensures forall i :: 0 <= i < |r| ==> r[i].messageCount > 0
    decreases |chats|
  {
    if |chats| == 0 then []
    else if |chats[0].1| > 0 then [Summary(chats[0].0, chats[0].1)] + Summaries(chats[1..])
    else Summaries(chats[1..])
  }

  /** Taking the first pair off a dictionary without repeated keys. */
  lemma UniqueTail(chats: Chats)
    requires Unique(chats) && |chats| > 0
    ensures Unique(chats[1..])
    ensures chats[0].0 !in Keys(chats[1..])
    ensures forall k :: Get(chats, k) == if chats[0].0 == k then Some(chats[0].1) else Get(chats[1..], k)
  {
    var d := chats[1..];
    forall i | 0 <= i < |d| ensures d[i].0 != chats[0].0 {
      assert d[i] == chats[i + 1];
    }
  }

  /** Each summary is the summary of its user's non-empty transcript. */
  lemma {:induction false} SummariesSound(chats: Chats)
    requires Unique(chats)
    ensures forall i :: 0 <= i < |Summaries(chats)| ==>
              var info := Summaries(chats)[i];
              && Get(chats, info.userId).Some?
              && |Get(chats, info.userId).value| > 0
              && info == Summary(info.userId, Get(chats, info.userId).value)
    decreases |chats|
  {
    if |chats| > 0 {
      var d := chats[1..];
      UniqueTail(chats);
      SummariesSound(d);
      var tail := Summaries(d);
      forall i | 0 <= i < |tail| ensures tail[i].userId in Keys(d) {
        assert Get(d, tail[i].userId).Some?;
      }
    }
  }

  /** Every user with a non-empty transcript has a summary. */
  lemma {:induction false} SummariesComplete(chats: Chats, k: int)
    requires Get(chats, k).Some? && |Get(chats, k).value| > 0
    ensures exists i :: 0 <= i < |Summaries(chats)| && Summaries(chats)[i].userId == k
    decreases |chats|
  {
    var r := Summaries(chats);
    if chats[0].0 == k {
      assert r[0].userId == k;
    } else {
      var d := chats[1..];
      SummariesComplete(d, k);
      var i :| 0 <= i < |Summaries(d)| && Summaries(d)[i].userId == k;
      if |chats[0].1| > 0 {
        assert r[i + 1] == Summaries(d)[i];
      } else {
        assert r == Summaries(d);
      }
    }
  }

  /** No user has two summaries. */
  predicate DistinctIds(s: seq<Info>) {
    forall i, j :: 0 <= i < j < |s| ==> s[i].userId != s[j].userId
  }

  /** The summaries name each user at most once. */
  lemma {:induction false} SummariesDistinct(chats: Chats)
    requires Unique(chats)
    ensures DistinctIds(Summaries(chats))
    decreases |chats|
  {
    if |chats| > 0 {
      var d := chats[1..];
      UniqueTail(chats);
      SummariesDistinct(d);
      SummariesSound(d);
      var tail := Summaries(d);
      if |chats[0].1| > 0 {
        var r := Summaries(chats);
        assert r == [Summary(chats[0].0, chats[0].1)] + tail;
        forall j | 0 <= j < |tail| ensures tail[j].userId != chats[0].0 {
          assert Get(d, tail[j].userId).Some?;
        }
        forall i, j | 0 <= i < j < |r| ensures r[i].userId != r[j].userId {
          assert r[j] == tail[j - 1];
          if i > 0 { assert r[i] == tail[i - 1]; }
        }
      }
    }
  }

  /** Newest first: along the list, the latest timestamps never increase. */
  predicate NewestFirst(s: seq<Info>) {
    forall i, j :: 0 <= i < j < |s| ==> LexLe(s[j].lastMessageTime, s[i].lastMessageTime)
  }

  /** The summaries whose latest timestamp is `t`, in their order in `s`. */
  function WithTime(s: seq<Info>, t: string): seq<Info>
    decreases |s|
  {
    if |s| == 0 then []
    else if s[0].lastMessageTime == t then [s[0]] + WithTime(s[1..], t)
    else WithTime(s[1..], t)
  }

  /** Put `x` before the first summary that is not strictly newer than it. */
  function Insert(x: Info, s: seq<Info>): (r: seq<Info>)
    ensures multiset(r) == multiset(s) + multiset{x}
    ensures NewestFirst(s) ==> NewestFirst(r)
    decreases |s|
  {
    if |s| == 0 || LexLe(s[0].lastMessageTime, x.lastMessageTime) then
      InsertInFront(x, s);
      [x] + s
    else
      var rest := Insert(x, s[1..]);
      InsertBehind(x, s, rest);
      [s[0]] + rest
  }

  /** `x` is not older than the first of a newest-first list, so it may go in front. */
  lemma InsertInFront(x: Info, s: seq<Info>)
    requires |s| == 0 || LexLe(s[0].lastMessageTime, x.lastMessageTime)
    ensures multiset([x] + s) == multiset(s) + multiset{x}
    ensures NewestFirst(s) ==> NewestFirst([x] + s)
  {
    if NewestFirst(s) && |s| > 0 {
      var r := [x] + s;
      forall i, j | 0 <= i < j < |r| ensures LexLe(r[j].lastMessageTime, r[i].lastMessageTime) {
        assert r[j] == s[j - 1];
        if i > 0 {
          assert r[i] == s[i - 1];
        } else if j > 1 {
          LexLeTransitive(s[j - 1].lastMessageTime, s[0].lastMessageTime, x.lastMessageTime);
        }
      }
    }
  }

  /** Dropping the first summary keeps a list newest first. */
  lemma NewestFirstTail(s: seq<Info>)
    requires |s| > 0 && NewestFirst(s)
    ensures NewestFirst(s[1..])
  {
    forall i, j | 0 <= i < j < |s[1..]|
      ensures LexLe(s[1..][j].lastMessageTime, s[1..][i].lastMessageTime)
    {
      assert s[1..][i] == s[i + 1] && s[1..][j] == s[j + 1];
    }
  }

  /** A summary not newer than every element of a newest-first list can go in front of it. */
  lemma ConsNewestFirst(y: Info, rest: seq<Info>)
    requires NewestFirst(rest)
    requires forall j :: 0 <= j < |rest| ==> LexLe(rest[j].lastMessageTime, y.lastMessageTime)
    ensures NewestFirst([y] + rest)
  {
    var r := [y] + rest;
    forall i, j | 0 <= i < j < |r| ensures LexLe(r[j].lastMessageTime, r[i].lastMessageTime) {
      assert r[j] == rest[j - 1];
      if i > 0 { assert r[i] == rest[i - 1]; }
    }
  }

  /** The first of a newest-first list is strictly newer than `x`, so it stays in front. */
  lemma InsertBehind(x: Info, s: seq<Info>, rest: seq<Info>)
    requires |s| > 0 && !LexLe(s[0].lastMessageTime, x.lastMessageTime)
    requires multiset(rest) == multiset(s[1..]) + multiset{x}
    requires NewestFirst(s[1..]) ==> NewestFirst(rest)
    ensures multiset([s[0]] + rest) == multiset(s) + multiset{x}
    ensures NewestFirst(s) ==> NewestFirst([s[0]] + rest)
  {
    assert s == [s[0]] + s[1..];
    if NewestFirst(s) {
      NewestFirstTail(s);
      LexLeTotal(s[0].lastMessageTime, x.lastMessageTime);
      forall j | 0 <= j < |rest| ensures LexLe(rest[j].lastMessageTime, s[0].lastMessageTime) {
        assert rest[j] in multiset(rest);
        if rest[j] != x {
          assert rest[j] in multiset(s[1..]);
          var m :| 0 <= m < |s[1..]| && s[1..][m] == rest[j];
          assert s[m + 1] == rest[j];
        }
      }
      ConsNewestFirst(s[0], rest);
    }
  }

  /** `sorted(s, key=last_message_time, reverse=True)`, by insertion. */
  function SortNewestFirst(s: seq<Info>): (r: seq<Info>)
    ensures multiset(r) == multiset(s)
    ensures NewestFirst(r)
    decreases |s|
  {
    if |s| == 0 then []
    else
      assert s == [s[0]] + s[1..];
      Insert(s[0], SortNewestFirst(s[1..]))
  }

  /** Inserting keeps the order among summaries with equal timestamps: `x` goes before the equal ones already there. */
  lemma {:induction false} InsertStable(x: Info, s: seq<Info>, t: string)
    ensures WithTime(Insert(x, s), t) == if x.lastMessageTime == t then [x] + WithTime(s, t) else WithTime(s, t)
    decreases |s|
  {
    if |s| == 0 || LexLe(s[0].lastMessageTime, x.lastMessageTime) {
      assert ([x] + s)[1..] == s;
    } else {
      var rest := Insert(x, s[1..]);
      InsertStable(x, s[1..], t);
      assert ([s[0]] + rest)[1..] == rest;
      LexLeReflexive(x.lastMessageTime);
      assert s[0].lastMessageTime != x.lastMessageTime;
    }
  }

  /** The sort is stable: for every timestamp, the summaries carrying it keep their relative order. */
  lemma {:induction false} SortStable(s: seq<Info>, t: string)
    ensures WithTime(SortNewestFirst(s), t) == WithTime(s, t)
    decreases |s|
  {
    if |s| > 0 {
      SortStable(s[1..], t);
      InsertStable(s[0], SortNewestFirst(s[1..]), t);
    }
  }

  lemma {:induction false} InsertKeepsIdsDistinct(x: Info, s: seq<Info>)
    requires DistinctIds(s)
    requires forall y :: y in s ==> y.userId != x.userId
    ensures DistinctIds(Insert(x, s))
    decreases |s|
  {
    if |s| > 0 && !LexLe(s[0].lastMessageTime, x.lastMessageTime) {
      var rest := Insert(x, s[1..]);
      assert DistinctIds(s[1..]) by {
        forall i, j | 0 <= i < j < |s[1..]| ensures s[1..][i].userId != s[1..][j].userId {
          assert s[1..][i] == s[i + 1] && s[1..][j] == s[j + 1];
        }
      }
      InsertKeepsIdsDistinct(x, s[1..]);
      forall j | 0 <= j < |rest| ensures rest[j].userId != s[0].userId {
        assert rest[j] in multiset(rest);
        if rest[j] != x {
          assert rest[j] in multiset(s[1..]);
          var m :| 0 <= m < |s[1..]| && s[1..][m] == rest[j];
          assert s[m + 1] == rest[j];
        }
      }
      var r := [s[0]] + rest;
      forall i, j | 0 <= i < j < |r| ensures r[i].userId != r[j].userId {
        if i > 0 { assert r[i] == rest[i - 1]; }
        assert r[j] == rest[j - 1];
      }
    } else {
      var r := [x] + s;
      forall i, j | 0 <= i < j < |r| ensures r[i].userId != r[j].userId {
        assert r[j] == s[j - 1];
        if i > 0 { assert r[i] == s[i - 1]; }
      }
    }
  }

  /** Sorting never puts one user in two places. */
  lemma {:induction false} SortKeepsIdsDistinct(s: seq<Info>)
    requires DistinctIds(s)
    ensures DistinctIds(SortNewestFirst(s))
    decreases |s|
  {
    if |s| > 0 {
      var t := SortNewestFirst(s[1..]);
      assert DistinctIds(s[1..]) by {
        forall i, j | 0 <= i < j < |s[1..]| ensures s[1..][i].userId != s[1..][j].userId {
          assert s[1..][i] == s[i + 1] && s[1..][j] == s[j + 1];
        }
      }
      SortKeepsIdsDistinct(s[1..]);
      forall y | y in t ensures y.userId != s[0].userId {
        assert y in multiset(t);
        assert y in multiset(s[1..]);
        var m :| 0 <= m < |s[1..]| && s[1..][m] == y;
        assert s[m + 1] == y;
      }
      InsertKeepsIdsDistinct(s[0], t);
    }
  }

  /**
   * `get_user_info`: scan every transcript file, summarise the non-empty
   * transcripts and sort the summaries newest first.
   */
  function GetUserInfo(dir: ChatDir, listing: seq<string>): (r: seq<Info>)
    ensures NewestFirst(r)
    ensures multiset(r) == multiset(Summaries(GetUserChats(dir, listing, None)))
    ensures forall t :: WithTime(r, t) == WithTime(Summaries(GetUserChats(dir, listing, None)), t)
  {
    var summaries := Summaries(GetUserChats(dir, listing, None));
    assert forall t :: WithTime(SortNewestFirst(summaries), t) == WithTime(summaries, t) by {
      forall t ensures WithTime(SortNewestFirst(summaries), t) == WithTime(summaries, t) {
        SortStable(summaries, t);
      }
    }
    SortNewestFirst(summaries)
  }

  /** Every element of a newest-first list is no newer than its first. */
  lemma FirstIsNewest(a: seq<Info>, y: Info)
    requires NewestFirst(a) && y in multiset(a)
    ensures LexLe(y.lastMessageTime, a[0].lastMessageTime)
  {
    var i :| 0 <= i < |a| && a[i] == y;
    if i == 0 { LexLeReflexive(y.lastMessageTime); }
  }

  /** Two lists with the same first element and the same elements have the same elements after it. */
  lemma MultisetTailsAgree(a: seq<Info>, b: seq<Info>)
    requires |a| > 0 && |b| > 0 && a[0] == b[0]
    requires multiset(a) == multiset(b)
    ensures multiset(a[1..]) == multiset(b[1..])
  {
    assert a == [a[0]] + a[1..] && b == [b[0]] + b[1..];
    assert multiset(a[1..]) == multiset(a) - multiset{a[0]};
    assert multiset(b[1..]) == multiset(b) - multiset{b[0]};
  }

  /** Two lists with the same first element and the same order at timestamp `t` keep that order after it. */
  lemma WithTimeTailsAgree(a: seq<Info>, b: seq<Info>, t: string)
    requires |a| > 0 && |b| > 0 && a[0] == b[0]
    requires WithTime(a, t) == WithTime(b, t)
    ensures WithTime(a[1..], t) == WithTime(b[1..], t)
  {
    if a[0].lastMessageTime == t {
      assert WithTime(a[1..], t) == WithTime(a, t)[1..];
      assert WithTime(b[1..], t) == WithTime(b, t)[1..];
    }
  }

  /**
   * Newest first, the same elements and the same order within every
   * timestamp leave only one possible list: these three properties pin
   * down the result of a stable sort.
   */
  lemma {:induction false} NewestFirstStableUnique(a: seq<Info>, b: seq<Info>)
    requires NewestFirst(a) && NewestFirst(b)
    requires multiset(a) == multiset(b)
    requires forall t :: WithTime(a, t) == WithTime(b, t)
    ensures a == b
    decreases |a|
  {
    assert |a| == |multiset(a)| == |multiset(b)| == |b|;
    if |a| > 0 {
      var x, y := a[0], b[0];
      FirstIsNewest(a, y);
      FirstIsNewest(b, x);
      LexLeAntisymmetric(x.lastMessageTime, y.lastMessageTime);
      assert x == y by {
        var t := x.lastMessageTime;
        assert WithTime(a, t) == WithTime(b, t);
        assert WithTime(a, t)[0] == x && WithTime(b, t)[0] == y;
      }
      MultisetTailsAgree(a, b);
      forall t ensures WithTime(a[1..], t) == WithTime(b[1..], t) {
        WithTimeTailsAgree(a, b, t);
      }
      NewestFirstTail(a);
      NewestFirstTail(b);
      NewestFirstStableUnique(a[1..], b[1..]);
      assert a == [x] + a[1..] && b == [y] + b[1..];
    }
  }

  /** Any list that meets `GetUserInfo`'s contract is its result: the contract fixes the output. */
  lemma GetUserInfoDetermined(dir: ChatDir, listing: seq<string>, r: seq<Info>)
    requires NewestFirst(r)
    requires multiset(r) == multiset(Summaries(GetUserChats(dir, listing, None)))
    requires forall t :: WithTime(r, t) == WithTime(Summaries(GetUserChats(dir, listing, None)), t)
    ensures r == GetUserInfo(dir, listing)
  {
    NewestFirstStableUnique(r, GetUserInfo(dir, listing));
  }

  /**
   * The records `get_user_info` returns are exactly the summaries of the
   * users the scan found with a non-empty transcript, one per user.
   */
  lemma GetUserInfoPerUser(dir: ChatDir, listing: seq<string>)
    ensures var chats := GetUserChats(dir, listing, None);
            var r := GetUserInfo(dir, listing);
            && (forall i :: 0 <= i < |r| ==>
                  && Get(chats, r[i].userId).Some?
                  && |Get(chats, r[i].userId).value| > 0
                  && r[i] == Summary(r[i].userId, Get(chats, r[i].userId).value))
            && (forall k :: Get(chats, k).Some? && |Get(chats, k).value| > 0 ==>
                  exists i :: 0 <= i < |r| && r[i].userId == k)
            && (forall i, j :: 0 <= i < j < |r| ==> r[i].userId != r[j].userId)
  {
    var chats := GetUserChats(dir, listing, None);
    var s := Summaries(chats);
    var r := GetUserInfo(dir, listing);
    assert r == SortNewestFirst(s);
    PermutationMembers(s, r);
    MembersSound(chats, r);
    MembersComplete(chats, r);
    SummariesDistinct(chats);
    SortKeepsIdsDistinct(s);
  }

  /** Every element of a list drawn from the summaries describes its user's transcript. */
  lemma MembersSound(chats: Chats, r: seq<Info>)
    requires Unique(chats)
    requires forall x :: x in r ==> x in Summaries(chats)
    ensures forall i :: 0 <= i < |r| ==>
              && Get(chats, r[i].userId).Some?
              && |Get(chats, r[i].userId).value| > 0
              && r[i] == Summary(r[i].userId, Get(chats, r[i].userId).value)
  {
    var s := Summaries(chats);
    SummariesSound(chats);
    forall i | 0 <= i < |r|
      ensures Get(chats, r[i].userId).Some? && |Get(chats, r[i].userId).value| > 0
      ensures r[i] == Summary(r[i].userId, Get(chats, r[i].userId).value)
    {
      assert r[i] in s;
      var m :| 0 <= m < |s| && s[m] == r[i];
    }
  }

  /** A list holding every summary has an element for every user with a non-empty transcript. */
  lemma MembersComplete(chats: Chats, r: seq<Info>)
    requires forall x :: x in Summaries(chats) ==> x in r
    ensures forall k :: Get(chats, k).Some? && |Get(chats, k).value| > 0 ==>
              exists i :: 0 <= i < |r| && r[i].userId == k
  {
    var s := Summaries(chats);
    forall k | Get(chats, k).Some? && |Get(chats, k).value| > 0
      ensures exists i :: 0 <= i < |r| && r[i].userId == k
    {
      SummariesComplete(chats, k);
      var m :| 0 <= m < |s| && s[m].userId == k;
      assert s[m] in r;
      var i :| 0 <= i < |r| && r[i] == s[m];
    }
  }

  /** A permutation has the same members. */
  lemma PermutationMembers(s: seq<Info>, r: seq<Info>)
    requires multiset(r) == multiset(s)
    ensures forall x :: x in r <==> x in s
  {
    forall x ensures x in r <==> x in s {
      assert x in r <==> x in multiset(r);
      assert x in s <==> x in multiset(s);
    }
  }
}
