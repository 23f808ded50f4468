// The list of monitored programs: serialised by the server with a comma in front of every name,
// split by the client, written to a file one name a line and read back.
module ProgramList {
  import opened Decimal

  // --- Text -------------------------------------------------------------------------------------------

  // boost::split without token compression: one token more than there are separators.
  function Split(s: string, sep: char): (tokens: seq<string>)
    ensures |tokens| > 0
  {
    if s == [] then [[]]
    else
      var rest := Split(s[1..], sep);
      if s[0] == sep then [[]] + rest else [[s[0]] + rest[0]] + rest[1..]
  }

  // Tokens with a separator between them.
  function Join(tokens: seq<string>, sep: char): (s: string)
    requires |tokens| > 0
  {
    if |tokens| == 1 then tokens[0] else tokens[0] + [sep] + Join(tokens[1..], sep)
  }

  predicate Free(tokens: seq<string>, c: char) {
    forall i :: 0 <= i < |tokens| ==> c !in tokens[i]
  }

  lemma {:induction false} JoinOfSplit(s: string, sep: char)
    ensures Join(Split(s, sep), sep) == s
  {
    if s != [] {
      JoinOfSplit(s[1..], sep);
      var rest, tokens := Split(s[1..], sep), Split(s, sep);
      if s[0] == sep {
        assert tokens[1..] == rest;
      } else if |rest| > 1 {
        assert tokens[1..] == rest[1..];
      }
      assert s == [s[0]] + s[1..];
    }
  }

  lemma {:induction false} SplitToken(t: string, s: string, sep: char)
    requires sep !in t
    ensures Split(t, sep) == [t]
    ensures Split(t + [sep] + s, sep) == [t] + Split(s, sep)
    decreases |t|
  {
    var all := t + [sep] + s;
    if t == [] {
      assert all[1..] == s;
    } else {
      SplitToken(t[1..], s, sep);
      assert all[1..] == t[1..] + [sep] + s;
      assert t == [t[0]] + t[1..];
    }
  }

  // Splitting undoes joining for names that do not contain the separator.
  lemma {:induction false} SplitOfJoin(tokens: seq<string>, sep: char)
    requires |tokens| > 0 && Free(tokens, sep)
    ensures Split(Join(tokens, sep), sep) == tokens
    decreases |tokens|
  {
    if |tokens| == 1 {
      SplitToken(tokens[0], [], sep);
    } else {
      SplitOfJoin(tokens[1..], sep);
      SplitToken(tokens[0], Join(tokens[1..], sep), sep);
    }
  }

  // --- The server's side --------------------------------------------------------------------------------

  // A comma in front of every name.
  function Serialized(names: seq<string>): (s: string) {
    if names == [] then [] else Serialized(names[..|names| - 1]) + [','] + names[|names| - 1]
  }

  // The list holds these names under the keys 1..n, and key 0, if it has been looked up before,
  // holds the empty string that looking it up has left there.
  ghost predicate Holds(list: map<int, string>, names: seq<string>) {
    && (forall k :: k in list.Keys ==> 0 <= k <= |names|)
    && (forall k :: 1 <= k <= |names| ==> k in list.Keys && list[k] == names[k - 1])
    && (0 in list.Keys ==> list[0] == "")
  }

  lemma {:induction false} SerializedIsJoin(names: seq<string>)
    requires names != []
    ensures Serialized(names) == [','] + Join(names, ',')
  {
    var n := |names| - 1;
    if n > 0 {
      SerializedIsJoin(names[..n]);
      JoinSnoc(names[..n], names[n], ',');
      assert names[..n] + [names[n]] == names;
    }
  }

  lemma {:induction false} JoinSnoc(tokens: seq<string>, t: string, sep: char)
    requires |tokens| > 0
    ensures Join(tokens + [t], sep) == Join(tokens, sep) + [sep] + t
  {
    if |tokens| > 1 {
      JoinSnoc(tokens[1..], t, sep);
      assert (tokens + [t])[1..] == tokens[1..] + [t];
    } else {
      assert (tokens + [t])[1..] == [t];
    }
  }

  // --- The client's side ----------------------------------------------------------------------------------

  // Text written over the beginning of a file that is opened without truncating it.
  function Overlay(text: string, previous: string): (file: string)
    ensures |file| >= |text|
  {
    text + (if |previous| > |text| then previous[|text|..] else [])
  }

  // The client reads the list back exactly when the file it overwrites was no longer than the new
  // text: anything that sticks out behind is read as part of the list.
  lemma RestoredIffCovered(names: seq<string>, previous: string)
    requires names != [] && Free(names, ',') && Free(names, '\n')
    ensures Serialized(names) != [] && Split(Serialized(names)[1..], ',') == names
    ensures Split(Overlay(Join(names, '\n'), previous), '\n') == names <==> |previous| <= |Join(names, '\n')|
  {
    SerializedIsJoin(names);
    assert Serialized(names)[1..] == Join(names, ',');
    SplitOfJoin(names, ',');
    var text := Join(names, '\n');
    SplitOfJoin(names, '\n');
    if |previous| <= |text| {
      assert Overlay(text, previous) == text;
    } else {
      JoinOfSplit(Overlay(text, previous), '\n');
    }
  }

  class ListClient {
    // masterlist.txt, when it exists
    var file: Option<string>
    var programList: seq<string>
    var programCount: nat

    // win_set_program_list
    method SetProgramList()
      modifies this`programList, this`programCount
      ensures file.Some? ==> programList == Split(file.value, '\n') && programCount == |programList|
      ensures file.None? ==> programList == [] && programCount == old(programCount)
    {
      hide Split;
      programList := [];
      if file.Some? {
        var contents, at, good, count := file.value, 0, true, 0;
        assert contents[0..] == contents;
        while good
          invariant 0 <= at <= |contents| && count == |programList|
          invariant good ==> Split(contents, '\n') == programList + Split(contents[at..], '\n')
          invariant !good ==> Split(contents, '\n') == programList
          decreases good, |contents| - at
        {
          ghost var from := at;
          var line;
          line, at, good := GetLine(contents, at);
          programList := programList + [line];
          count := count + 1;
          assert good ==> programList[..count - 1] + ([line] + Split(contents[at..], '\n')) == programList + Split(contents[at..], '\n');
        }
        programCount := count;
      }
    }

    // boost::split, write, re-read; the file is opened for update and must exist.
    method WriteProgramFile(list: string)
      modifies this
      ensures file == if old(file).None? then None
                      else Some(Overlay(Join(Split(list, ','), '\n'), old(file).value))
      ensures file.Some? ==> programList == Split(file.value, '\n') && programCount == |programList|
      ensures file.None? ==> programList == [] && programCount == old(programCount)
    {
      var splits := Split(list, ',');
      if file.Some? {
        var text := WriteLines(splits);
        file := Some(Overlay(text, file.value));
      }
      SetProgramList();
    }

    // The list part of call_home_task: drop the leading comma and write the file.  substr throws
    // on an empty answer and leaves everything as it was.
    method ReceiveList(output: string) returns (ok: bool)
      modifies this
      ensures ok <==> output != []
      ensures ok && old(file).Some? ==>
        file == Some(Overlay(Join(Split(output[1..], ','), '\n'), old(file).value))
      ensures !ok ==> file == old(file) && programList == old(programList) && programCount == old(programCount)
      ensures forall names: seq<string> ::
        names != [] && Free(names, ',') && Free(names, '\n') && output == Serialized(names) && old(file).Some? ==>
          (programList == names <==> |old(file).value| <= |Join(names, '\n')|)
          && (programList == names ==> programCount == |names|)
    {
      ok := output != [];
      if ok {
        WriteProgramFile(output[1..]);
      }
      forall names: seq<string> |
        names != [] && Free(names, ',') && Free(names, '\n') && output == Serialized(names) && old(file).Some?
        ensures programList == names <==> |old(file).value| <= |Join(names, '\n')|
      {
        RestoredIffCovered(names, old(file).value);
      }
    }
  }

  // Up to the next newline or the end of the file; the stream stays good only after a newline.
  method GetLine(contents: string, from: nat) returns (line: string, at: nat, good: bool)
    requires from <= |contents|
    ensures from <= at <= |contents|
    ensures good ==> from < at && Split(contents[from..], '\n') == [line] + Split(contents[at..], '\n')
    ensures !good ==> Split(contents[from..], '\n') == [line]
  {
    hide Split;
    line, at := "", from;
    while at < |contents| && contents[at] != '\n'
      invariant from <= at <= |contents| && line == contents[from..at] && '\n' !in line
    {
      line := line + [contents[at]];
      at := at + 1;
    }
    FirstLine(contents, from, at);
    good := at < |contents|;
    if good {
      at := at + 1;
    }
  }

  lemma FirstLine(contents: string, from: nat, at: nat)
    requires from <= at <= |contents| && '\n' !in contents[from..at] && (at < |contents| ==> contents[at] == '\n')
    ensures Split(contents[from..], '\n')
         == [contents[from..at]] + if at < |contents| then Split(contents[at + 1..], '\n') else []
  {
    hide Split;
    var line := contents[from..at];
    if at < |contents| {
      SplitToken(line, contents[at + 1..], '\n');
      assert contents[from..] == line + ['\n'] + contents[at + 1..];
    } else {
      SplitToken(line, [], '\n');
      assert contents[from..] == line;
    }
  }

  // A newline after every name but the last.
  method WriteLines(splits: seq<string>) returns (text: string)
    requires |splits| > 0
    ensures text == Join(splits, '\n')
  {
    text := "";
    for i := 0 to |splits|
      invariant i == 0 ==> text == ""
      invariant 0 < i < |splits| ==> text == Join(splits[..i], '\n') + ['\n']
      invariant i == |splits| ==> text == Join(splits, '\n')
    {
      if i > 0 {
        JoinSnoc(splits[..i], splits[i], '\n');
        assert splits[..i] + [splits[i]] == splits[..i + 1];
      }
      if i < |splits| - 1 {
        text := text + (splits[i] + ['\n']);
      } else {
        text := text + splits[i];
        assert splits[..i + 1] == splits;
      }
    }
  }

  // The server's list, looked up under each index below its size; looking up index 0 creates it,
  // which makes the list one longer while the loop runs.
  class ListServer {
    var list: map<int, string>

    constructor ()
      ensures list == map[]
    {
      list := map[];
    }

    method ListText(ghost names: seq<string>) returns (data: string)
      requires Holds(list, names)
      modifies this`list
      ensures data == Serialized(names)
      ensures Holds(list, names)
      ensures list == if old(list) == map[] then map[] else old(list)[0 := ""]
    {
      hide Serialized;
      ghost var initial := list;
      data := "";
      var x := 0;
      SerializedNext(names, 0);
      while x < |list|
        invariant Holds(list, names)
        invariant 0 <= x <= |names| + 1
        invariant if x == 0 then list == initial else initial != map[] && list == initial[0 := ""]
        invariant data == if x == 0 then "" else Serialized(names[..x - 1])
        decreases |names| + 1 - x
      {
        ListSize(list, names);
        if x !in list {
          list := list[x := ""];
        }
        if x > 0 {
          SerializedNext(names, x);
          data := data + "," + list[x];
        } else {
          data := data + list[x];
        }
        x := x + 1;
      }
      ListSize(list, names);
      assert names[..|names|] == names;
      if x == 0 {
        assert list.Keys == {};
      }
    }
  }

  lemma SerializedNext(names: seq<string>, x: nat)
    requires x <= |names|
    ensures x == 0 ==> Serialized(names[..x]) == ""
    ensures x > 0 ==> Serialized(names[..x]) == Serialized(names[..x - 1]) + "," + names[x - 1]
  {
    if x > 0 {
      assert names[..x][..x - 1] == names[..x - 1];
    }
  }

  // The number of keys: one per name, and one more once key 0 is there.
  lemma ListSize(list: map<int, string>, names: seq<string>)
    requires Holds(list, names)
    ensures |list| == |names| + if 0 in list then 1 else 0
  {
    if 0 in list {
      assert list.Keys == KeysTo(|names|) + {0};
    } else {
      assert list.Keys == KeysTo(|names|);
    }
  }

  ghost function KeysTo(n: nat): (keys: set<int>)
    ensures forall k :: k in keys <==> 1 <= k <= n
    ensures |keys| == n
  {
    if n == 0 then {} else KeysTo(n - 1) + {n}
  }

  // First call and every later call, from the names in the database to the client's list.
  method RoundTrip(server: ListServer, client: ListClient, names: seq<string>)
    requires names != [] && Free(names, ',') && Free(names, '\n') && Holds(server.list, names)
    requires client.file.Some? && |client.file.value| <= |Join(names, '\n')|
    modifies server, client
    ensures Holds(server.list, names)
    ensures client.programList == names && client.programCount == |names|
    ensures client.file == Some(Join(names, '\n'))
  {
    hide Split, Join, Serialized, Free;
    ghost var text, previous := Join(names, '\n'), client.file.value;
    assert Overlay(text, previous) == text;
    RestoredIffCovered(names, previous);
    var output := server.ListText(names);
    var received := client.ReceiveList(output);
  }
}
