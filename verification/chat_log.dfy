/**
 * The transcript store of chat_logger.py. The `chats` directory is a map
 * from file name to what opening and decoding that file yields; each user's
 * transcript lives in `chat_<user_id>.json` as a list of message records.
 * The clock and the success of the final write are parameters; the order
 * in which the directory lists its files is a parameter of the full scan.
 */
module ChatLog {
  import opened Optional
  import opened Text
  import Decimal
  import opened OrderedDict

  /** One logged exchange, as `log_message` builds it. */
  datatype Entry = Entry(
    timestamp: string,
    userId: int,
    username: Option<string>,
    firstName: Option<string>,
    userMessage: string,
    botResponse: string)

  /** What opening a file of the directory and decoding its JSON gives. */
  datatype StoredFile =
    | Log(entries: seq<Entry>)  // a JSON list of message records
    | Garbled                   // `json.load` raises `JSONDecodeError`
    | Unreadable                // opening or reading raises another error (an `OSError`)

  datatype ChatDir = ChatDir(files: map<string, StoredFile>)

  /** What `get_user_chats` returns: user id to transcript, in insertion order. */
  type Chats = Dict<seq<Entry>>

  const FilePrefix: string := "chat_"
  const FileSuffix: string := ".json"

  /** `f"chat_{user_id}.json"` */
  function ChatFileName(u: int): string
  {
    FilePrefix + Decimal.IntToString(u) + FileSuffix
  }

  /**
   * The user id a directory entry stands for: the name must start with
   * "chat_" and end with ".json", and what is left after deleting every
   * "chat_" and then every ".json" must be an integer. `None` when the name
   * is ignored or `int()` raises `ValueError`.
   */
  function UserIdOf(name: string): Option<int>
  {
    if StartsWith(name, FilePrefix) && EndsWith(name, FileSuffix) then
      Decimal.ParseInt(ReplaceAll(ReplaceAll(name, FilePrefix, ""), FileSuffix, ""))
    else
      None
  }

  /** Only names that pass the prefix and suffix filter yield a user id. */
  lemma UserIdOfNeedsFilter(name: string)
    ensures UserIdOf(name).Some? ==> StartsWith(name, FilePrefix) && EndsWith(name, FileSuffix)
  {
  }

  /** A canonical file name is "chat_", then the number and the suffix. */
  lemma ChatFileNameShape(u: int)
    ensures StartsWith(ChatFileName(u), FilePrefix)
    ensures EndsWith(ChatFileName(u), FileSuffix)
    ensures ChatFileName(u)[|FilePrefix|..] == Decimal.IntToString(u) + FileSuffix
  {
    var name := ChatFileName(u);
    assert name[..5] == FilePrefix;
    assert name[|name| - 5..] == FileSuffix;
  }

  /** Neither the number nor the suffix contains a 'c', so "chat_" never occurs in them. */
  lemma NoPrefixAfterPrefix(u: int)
    ensures ReplaceAll(Decimal.IntToString(u) + FileSuffix, FilePrefix, "") == Decimal.IntToString(u) + FileSuffix
  {
    var t := Decimal.IntToString(u) + FileSuffix;
    Decimal.IntToStringAlphabet(u);
    assert forall i :: 0 <= i < |t| ==> t[i] != FilePrefix[0];
    assert !Occurs(FilePrefix, t) by {
      forall i | 0 <= i <= |t| ensures !StartsWith(t[i..], FilePrefix) {
        if i < |t| { assert t[i..][0] == t[i]; }
      }
    }
    ReplaceAllWithoutOccurrence(t, FilePrefix, "");
  }

  /** Deleting every "chat_" from a canonical file name leaves the number and the suffix. */
  lemma StripPrefixOfChatFileName(u: int)
    ensures ReplaceAll(ChatFileName(u), FilePrefix, "") == Decimal.IntToString(u) + FileSuffix
  {
    ChatFileNameShape(u);
    NoPrefixAfterPrefix(u);
  }

  /** Deleting every ".json" from the number and the suffix leaves the number. */
  lemma StripSuffixOfNumber(u: int)
    ensures ReplaceAll(Decimal.IntToString(u) + FileSuffix, FileSuffix, "") == Decimal.IntToString(u)
  {
    var d := Decimal.IntToString(u);
    Decimal.IntToStringAlphabet(u);
    ReplaceAllSkipsPrefix(d, FileSuffix, FileSuffix, "");
    assert StartsWith(FileSuffix, FileSuffix);
    assert FileSuffix[|FileSuffix|..] == "";
    assert ReplaceAll(FileSuffix, FileSuffix, "") == "";
    assert d + "" == d;
  }

  /** The file name built for a user parses back to that user. */
  lemma UserIdOfChatFileName(u: int)
    ensures UserIdOf(ChatFileName(u)) == Some(u)
  {
    ChatFileNameShape(u);
    StripPrefixOfChatFileName(u);
    StripSuffixOfNumber(u);
    Decimal.ParseIntOfIntToString(u);
  }

  /** Different users never share a transcript file. */
  lemma ChatFileNameInjective(u: int, v: int)
    requires ChatFileName(u) == ChatFileName(v)
    ensures u == v
  {
    ChatFileNameShape(u);
    ChatFileNameShape(v);
    var n := ChatFileName(u);
    assert Decimal.IntToString(u) == n[|FilePrefix|..][..|n| - |FilePrefix| - |FileSuffix|];
    assert Decimal.IntToString(v) == n[|FilePrefix|..][..|n| - |FilePrefix| - |FileSuffix|];
    Decimal.IntToStringInjective(u, v);
  }

  /** What opening a listed name gives; a name that is gone raises `FileNotFoundError`. */
  function Read(dir: ChatDir, name: string): StoredFile
  {
    if name in dir.files then dir.files[name] else Unreadable
  }

  /** The list `log_message` appends to: the stored one, or an empty one when the file is missing or undecodable. */
  function Existing(dir: ChatDir, name: string): seq<Entry>
  {
    if name in dir.files && dir.files[name].Log? then dir.files[name].entries else []
  }

  /**
   * `log_message`: load the user's list (an empty one when the file is
   * missing or is not valid JSON), append one record and write the list
   * back. Any other failure, including an unreadable file or a failed
   * write, leaves the directory as it was and returns `False`.
   */
  function LogMessage(
    dir: ChatDir, u: int, userMessage: string, botResponse: string,
    username: Option<string>, firstName: Option<string>,
    now: string, writeSucceeds: bool): (r: (ChatDir, bool))
    ensures r.1 <==> writeSucceeds && !(ChatFileName(u) in dir.files && dir.files[ChatFileName(u)].Unreadable?)
    ensures !r.1 ==> r.0 == dir
    ensures r.1 ==>
              && ChatFileName(u) in r.0.files
              && r.0.files[ChatFileName(u)].Log?
              && var es := r.0.files[ChatFileName(u)].entries;
                 && |es| > 0
                 && es[|es| - 1] == Entry(now, u, username, firstName, userMessage, botResponse)
                 && es[..|es| - 1] == Existing(dir, ChatFileName(u))
    ensures r.1 && ChatFileName(u) !in dir.files ==>
              r.0.files[ChatFileName(u)] == Log([Entry(now, u, username, firstName, userMessage, botResponse)])
    ensures r.1 && ChatFileName(u) in dir.files && dir.files[ChatFileName(u)].Garbled? ==>
              r.0.files[ChatFileName(u)] == Log([Entry(now, u, username, firstName, userMessage, botResponse)])
    ensures forall n :: n != ChatFileName(u) ==> (n in r.0.files <==> n in dir.files)
    ensures forall n :: n != ChatFileName(u) && n in dir.files ==> r.0.files[n] == dir.files[n]
  {
    var name := ChatFileName(u);
    var entry := Entry(now, u, username, firstName, userMessage, botResponse);
    if name in dir.files && dir.files[name].Unreadable? then
      (dir, false)
    else if !writeSucceeds then
      (dir, false)
    else
      var es := Existing(dir, name) + [entry];
      assert es[..|es| - 1] == Existing(dir, name);
      (ChatDir(dir.files[name := Log(es)]), true)
  }

  /** Python truthiness of the optional `user_id` argument: `None` and `0` are false. */
  predicate Truthy(userId: Option<int>) {
    userId.Some? && userId.value != 0
  }

  /** Reading one user's file; a missing, undecodable or unreadable file yields nothing. */
  function ReadOne(dir: ChatDir, u: int): Chats
  {
    var name := ChatFileName(u);
    if name in dir.files && dir.files[name].Log? then [(u, dir.files[name].entries)] else []
  }

  /** The single-user read has at most `u` as a key, and an entry exactly when `u`'s file decodes, holding its content. */
  lemma ReadOneReadsFile(dir: ChatDir, u: int)
    ensures Keys(ReadOne(dir, u)) <= {u}
    ensures Get(ReadOne(dir, u), u).Some? <==> Read(dir, ChatFileName(u)).Log?
    ensures Read(dir, ChatFileName(u)).Log? ==> Get(ReadOne(dir, u), u) == Some(Read(dir, ChatFileName(u)).entries)
  {
  }

  /**
   * The loop over the directory listing: ignored names and names whose
   * middle is not an integer are skipped, as are undecodable files; an
   * unreadable file ends the scan with what has been gathered so far.
   */
  function Scan(dir: ChatDir, listing: seq<string>, acc: Chats): (r: Chats)
    ensures Keys(acc) <= Keys(r)
    ensures Unique(acc) ==> Unique(r)
    decreases |listing|
  {
    if |listing| == 0 then acc
    else
      match UserIdOf(listing[0])
      case None => Scan(dir, listing[1..], acc)
      case Some(u) =>
        match Read(dir, listing[0])
        case Log(es) =>
          var acc' := Put(acc, u, es);
          assert Unique(acc) ==> Unique(acc') by {
            if Unique(acc) { PutPreservesUnique(acc, u, es); }
          }
          Scan(dir, listing[1..], acc')
        case Garbled => Scan(dir, listing[1..], acc)
        case Unreadable => acc
  }

  /**
   * `get_user_chats(user_id)`: a truthy id reads that user's file only;
   * otherwise every file of the listing is scanned. Errors end the read and
   * what was gathered is returned.
   */
  function GetUserChats(dir: ChatDir, listing: seq<string>, userId: Option<int>): (r: Chats)
    ensures Unique(r)
    ensures Truthy(userId) ==> Keys(r) <= {userId.value}
    ensures Truthy(userId) && ChatFileName(userId.value) !in dir.files ==> r == []
    ensures Truthy(userId) ==>
              (Get(r, userId.value).Some? <==>
               ChatFileName(userId.value) in dir.files && dir.files[ChatFileName(userId.value)].Log?)
    ensures Truthy(userId) && Get(r, userId.value).Some? ==>
              dir.files[ChatFileName(userId.value)] == Log(Get(r, userId.value).value)
  {
    if Truthy(userId) then ReadOne(dir, userId.value)
    else Scan(dir, listing, [])
  }

  /** The names of the listing the scan looks at: those that stand for a user id. */
  function UserFiles(listing: seq<string>): (r: seq<string>)
    ensures |r| <= |listing|
    ensures forall i :: 0 <= i < |r| ==> UserIdOf(r[i]).Some?
    decreases |listing|
  {
    if |listing| == 0 then []
    else if UserIdOf(listing[0]).Some? then [listing[0]] + UserFiles(listing[1..])
    else UserFiles(listing[1..])
  }

  /**
   * Names that do not have the "chat_<integer>.json" shape are skipped
   * without ending the scan: scanning the whole listing gives what scanning
   * only the user files gives.
   */
  lemma {:induction false} ScanIgnoresOtherNames(dir: ChatDir, listing: seq<string>, acc: Chats)
    ensures Scan(dir, listing, acc) == Scan(dir, UserFiles(listing), acc)
    decreases |listing|
  {
    if |listing| > 0 {
      var rest := UserFiles(listing[1..]);
      if UserIdOf(listing[0]).Some? {
        var u := UserIdOf(listing[0]).value;
        var l' := [listing[0]] + rest;
        assert l'[0] == listing[0] && l'[1..] == rest;
        match Read(dir, listing[0])
        case Log(es) => ScanIgnoresOtherNames(dir, listing[1..], Put(acc, u, es));
        case Garbled => ScanIgnoresOtherNames(dir, listing[1..], acc);
        case Unreadable =>
      } else {
        ScanIgnoresOtherNames(dir, listing[1..], acc);
      }
    }
  }

  /**
   * An unreadable user file ends the scan: the result is what the names
   * before it produced, whatever comes after.
   */
  lemma {:induction false} ScanStopsAtUnreadable(dir: ChatDir, listing: seq<string>, acc: Chats, i: int)
    requires 0 <= i < |listing|
    requires UserIdOf(listing[i]).Some? && Read(dir, listing[i]) == Unreadable
    ensures Scan(dir, listing, acc) == Scan(dir, listing[..i], acc)
    decreases |listing|
  {
    if i > 0 {
      assert listing[..i][0] == listing[0];
      assert listing[..i][1..] == listing[1..][..i - 1];
      match UserIdOf(listing[0])
      case None => ScanStopsAtUnreadable(dir, listing[1..], acc, i - 1);
      case Some(u) =>
        match Read(dir, listing[0])
        case Log(es) => ScanStopsAtUnreadable(dir, listing[1..], Put(acc, u, es), i - 1);
        case Garbled => ScanStopsAtUnreadable(dir, listing[1..], acc, i - 1);
        case Unreadable =>
    }
  }

  /**
   * Every transcript in the scan's result was gathered before the scan or
   * is the content of a listed file whose name parses to that user.
   */
  lemma {:induction false} ScanSound(dir: ChatDir, listing: seq<string>, acc: Chats, k: int)
    requires k in Keys(Scan(dir, listing, acc))
    ensures var v := Get(Scan(dir, listing, acc), k);
            v == Get(acc, k)
            || exists i :: 0 <= i < |listing| && UserIdOf(listing[i]) == Some(k) && Read(dir, listing[i]) == Log(v.value)
    decreases |listing|
  {
    var r := Scan(dir, listing, acc);
    var v := Get(r, k);
    if |listing| > 0 {
      match UserIdOf(listing[0])
      case None =>
        ScanSound(dir, listing[1..], acc, k);
        if v != Get(acc, k) { ShiftWitness(dir, listing, k, v); }
      case Some(u) =>
        match Read(dir, listing[0])
        case Log(es) =>
          ScanSound(dir, listing[1..], Put(acc, u, es), k);
          if k != u { PutKeepsOthers(acc, u, es, k); }
          if v != Get(Put(acc, u, es), k) {
            ShiftWitness(dir, listing, k, v);
          } else if k == u {
            assert UserIdOf(listing[0]) == Some(k) && Read(dir, listing[0]) == Log(v.value);
          }
        case Garbled =>
          ScanSound(dir, listing[1..], acc, k);
          if v != Get(acc, k) { ShiftWitness(dir, listing, k, v); }
        case Unreadable =>
    }
  }

  /** A witness found in the tail of a listing is a witness in the listing. */
  lemma ShiftWitness(dir: ChatDir, listing: seq<string>, k: int, v: Option<seq<Entry>>)
    requires |listing| > 0 && v.Some?
    requires exists i :: 0 <= i < |listing[1..]| && UserIdOf(listing[1..][i]) == Some(k) && Read(dir, listing[1..][i]) == Log(v.value)
    ensures exists i :: 0 <= i < |listing| && UserIdOf(listing[i]) == Some(k) && Read(dir, listing[i]) == Log(v.value)
  {
    var i :| 0 <= i < |listing[1..]| && UserIdOf(listing[1..][i]) == Some(k) && Read(dir, listing[1..][i]) == Log(v.value);
    assert listing[1..][i] == listing[i + 1];
  }

  /** No listed user file is unreadable, so the scan runs to the end. */
  predicate NoUnreadable(dir: ChatDir, listing: seq<string>) {
    forall i :: 0 <= i < |listing| && UserIdOf(listing[i]).Some? ==> Read(dir, listing[i]) != Unreadable
  }

  /** When the scan runs to the end, every listed, decodable user file contributes its user. */
  lemma {:induction false} ScanComplete(dir: ChatDir, listing: seq<string>, acc: Chats, i: int)
    requires NoUnreadable(dir, listing)
    requires 0 <= i < |listing| && UserIdOf(listing[i]).Some? && Read(dir, listing[i]).Log?
    ensures UserIdOf(listing[i]).value in Keys(Scan(dir, listing, acc))
    decreases |listing|
  {
    assert NoUnreadable(dir, listing[1..]) by {
      forall j | 0 <= j < |listing[1..]| && UserIdOf(listing[1..][j]).Some?
        ensures Read(dir, listing[1..][j]) != Unreadable
      {
        assert listing[1..][j] == listing[j + 1];
      }
    }
    var u := UserIdOf(listing[0]);
    if i == 0 {
      var es := Read(dir, listing[0]).entries;
      assert Get(Put(acc, u.value, es), u.value).Some?;
    } else {
      assert listing[1..][i - 1] == listing[i];
      if u.None? {
        ScanComplete(dir, listing[1..], acc, i - 1);
      } else if Read(dir, listing[0]).Log? {
        ScanComplete(dir, listing[1..], Put(acc, u.value, Read(dir, listing[0]).entries), i - 1);
      } else {
        assert Read(dir, listing[0]).Garbled?;
        ScanComplete(dir, listing[1..], acc, i - 1);
      }
    }
  }

  /**
   * The full scan and the single-user read agree on a user whose only
   * listed file is the canonical one, provided the scan is not cut short.
   */
  lemma ScanAgreesWithSingleRead(dir: ChatDir, listing: seq<string>, k: int)
    requires k != 0
    requires NoUnreadable(dir, listing)
    requires ChatFileName(k) in listing
    requires forall i :: 0 <= i < |listing| && UserIdOf(listing[i]) == Some(k) ==> listing[i] == ChatFileName(k)
    requires ChatFileName(k) in dir.files && dir.files[ChatFileName(k)].Log?
    ensures Get(GetUserChats(dir, listing, None), k) == Get(GetUserChats(dir, listing, Some(k)), k)
  {
    var i :| 0 <= i < |listing| && listing[i] == ChatFileName(k);
    UserIdOfChatFileName(k);
    ScanComplete(dir, listing, [], i);
    ScanSound(dir, listing, [], k);
  }

  /** After a successful `log_message`, reading that user's transcript gives the old one plus the new record. */
  lemma LogThenRead(
    dir: ChatDir, listing: seq<string>, u: int, userMessage: string, botResponse: string,
    username: Option<string>, firstName: Option<string>, now: string, writeSucceeds: bool)
    requires u != 0
    requires LogMessage(dir, u, userMessage, botResponse, username, firstName, now, writeSucceeds).1
    ensures GetUserChats(LogMessage(dir, u, userMessage, botResponse, username, firstName, now, writeSucceeds).0, listing, Some(u))
            == [(u, Existing(dir, ChatFileName(u)) + [Entry(now, u, username, firstName, userMessage, botResponse)])]
  {
  }

  /** `log_message` for one user leaves every other user's transcript as it was. */
  lemma LogLeavesOthers(
    dir: ChatDir, listing: seq<string>, u: int, v: int, userMessage: string, botResponse: string,
    username: Option<string>, firstName: Option<string>, now: string, writeSucceeds: bool)
    requires v != u && v != 0
    ensures GetUserChats(LogMessage(dir, u, userMessage, botResponse, username, firstName, now, writeSucceeds).0, listing, Some(v))
            == GetUserChats(dir, listing, Some(v))
  {
    if ChatFileName(v) == ChatFileName(u) {
      ChatFileNameInjective(u, v);
    }
  }
}
