/** The inbound pump (`ReceiveMessages`): every frame received from the
    server is classified by substring tests on its text, the system marker
    and the user-list prefix are stripped, and a user-list reply is split
    into trimmed names.  The loop stops at the first close frame. */
module Inbound {
  import opened Wrappers
  import opened Text

  /** Size of the receive buffer; one receive yields at most this much. */
  const BufferSize: nat := 1024

  const SystemDisplay := "SystemDisplay"
  const SystemTag := "SystemDisplay(System)"
  const SystemLabel := "(System)"
  const UserListMarker := "ConnectedUserList"
  const UserListPrefix := "(System)ConnectedUserList: "

  /** The tag the server puts on a message echoed from `username`; a null
      username concatenates as the empty string. */
  function SelfTag(username: string): string
  {
    "(" + username + ")"
  }

  /** The colour class of a message: yellow for the user's own messages,
      magenta for system messages, dark green for the rest. */
  datatype Kind = OwnMessage | SystemMessage | PlainMessage

  /** What the pump shows for one frame: the colour class, the final text
      of the message and, for a user-list reply, the list it renders
      instead of that text. */
  datatype Rendered = Rendered(kind: Kind, message: string, users: Option<seq<string>>)

  /** The colour decision and the rewrite that goes with it: only a
      system message is rewritten, and the rewrite only deletes text. */
  function Highlight(payload: string, username: string): (r: (Kind, string))
    ensures r.0 != SystemMessage ==> r.1 == payload
    ensures |r.1| <= |payload|
  {
    if Contains(payload, SelfTag(username)) then (OwnMessage, payload)
    else if Contains(payload, SystemTag) then
      ReplaceByEmptyShortens(payload, SystemDisplay);
      (SystemMessage, Replace(payload, SystemDisplay, ""))
    else (PlainMessage, payload)
  }

  function TrimAll(pieces: seq<string>): (r: seq<string>)
  {
    seq(|pieces|, k requires 0 <= k < |pieces| => Trim(pieces[k]))
  }

  /** The text of a user-list reply once its prefix is removed. */
  function UserListBody(message: string): string
  {
    Replace(message, UserListPrefix, "")
  }

  /** The user list carried by `message`, if it is a user-list reply. */
  function UserList(message: string): Option<seq<string>>
  {
    if Contains(message, UserListMarker) then Some(TrimAll(Split(UserListBody(message), ",")))
    else None
  }

  /** The whole treatment of one decoded frame.  The text shown is never
      longer than the frame, and a message with neither a system nor a
      user-list part is shown as it came. */
  function Classify(payload: string, username: string): (r: Rendered)
    ensures |r.message| <= |payload|
    ensures r.kind != SystemMessage && r.users == None ==> r.message == payload
  {
    var (kind, message) := Highlight(payload, username);
    var users := UserList(message);
    ReplaceByEmptyShortens(message, UserListPrefix);
    Rendered(kind, if users.Some? then UserListBody(message) else message, users)
  }

  // ---------------------------------------------------------------------
  // Classification properties
  // ---------------------------------------------------------------------

  /** The self test comes first: a frame carrying the user's tag is the
      user's own and its text is not rewritten, even when it also carries
      the system tag. */
  lemma OwnMessageWins(payload: string, username: string)
    requires Contains(payload, SelfTag(username))
    ensures Classify(payload, username).kind == OwnMessage
    ensures !Contains(payload, UserListMarker) ==>
              Classify(payload, username) == Rendered(OwnMessage, payload, None)
  {
  }

  /** A frame that is not the user's own but carries the system tag is a
      system message; every occurrence of the marker is removed, which is
      the same as joining the pieces between the occurrences. */
  lemma SystemMessageStripped(payload: string, username: string)
    requires !Contains(payload, SelfTag(username)) && Contains(payload, SystemTag)
    ensures Classify(payload, username).kind == SystemMessage
    ensures Highlight(payload, username).1 == Join(Split(payload, SystemDisplay), "")
    ensures forall k :: 0 <= k < |Split(payload, SystemDisplay)| ==>
              !Contains(Split(payload, SystemDisplay)[k], SystemDisplay)
    ensures Contains(Highlight(payload, username).1, SystemLabel)
  {
    ReplaceIsJoinOfSplit(payload, SystemDisplay, "");
    ContainsIff(payload, SystemTag);
    var i :| OccursAt(payload, SystemTag, i);
    StrippingKeepsLabel(payload, i);
  }

  /** Everything else is plain and passes through unchanged. */
  lemma PlainMessageUnchanged(payload: string, username: string)
    requires !Contains(payload, SelfTag(username)) && !Contains(payload, SystemTag)
    ensures Highlight(payload, username) == (PlainMessage, payload)
    ensures !Contains(payload, UserListMarker) ==>
              Classify(payload, username) == Rendered(PlainMessage, payload, None)
  {
  }

  lemma NoOccurrenceByMismatch(s: string, pat: string, j: nat, m: nat)
    requires m < |pat| && j + m < |s| && s[j + m] != pat[m]
    ensures !OccursAt(s, pat, j)
  {
    if j + |pat| <= |s| {
      assert s[j..j + |pat|][m] == s[j + m];
    }
  }

  /** Where the scan of the label meets a character that rules out the
      marker starting at position `j` of the label. */
  function LabelMismatch(j: nat): nat
  {
    if j == 1 then 6 else 0
  }

  lemma LabelMismatchHolds(j: nat)
    requires j < |SystemLabel|
    ensures j + LabelMismatch(j) < |SystemLabel|
    ensures SystemLabel[j + LabelMismatch(j)] != SystemDisplay[LabelMismatch(j)]
  {
    var sl, sd := SystemLabel, SystemDisplay;
    assert sl == ['(', 'S', 'y', 's', 't', 'e', 'm', ')'];
    assert sd[0] == 'S' && sd[6] == 'D';
  }

  /** Stripping the marker keeps the label that follows it. */
  lemma LabelSurvives(z: string)
    ensures Replace(SystemLabel + z, SystemDisplay, "") == SystemLabel + Replace(z, SystemDisplay, "")
  {
    var s := SystemLabel + z;
    forall i | 0 <= i < |SystemLabel|
      ensures !OccursAt(s, SystemDisplay, i)
    {
      LabelMismatchHolds(i);
      var m := LabelMismatch(i);
      assert s[i + m] == SystemLabel[i + m];
      NoOccurrenceByMismatch(s, SystemDisplay, i, m);
    }
    ReplaceSkipsPrefix(SystemLabel, z, SystemDisplay, "");
  }

  lemma MarkerHasOneS(i: nat)
    requires 1 <= i < |SystemDisplay|
    ensures SystemDisplay[i] != 'S'
  {
    var sd := SystemDisplay;
    assert sd == ['S', 'y', 's', 't', 'e', 'm', 'D', 'i', 's', 'p', 'l', 'a', 'y'];
  }

  /** The marker does not overlap itself: a second occurrence starts at
      least one marker length after an occurrence at the front. */
  lemma MarkerDoesNotOverlap(s: string, i: nat)
    requires StartsWith(s, SystemDisplay) && OccursAt(s, SystemDisplay, i) && i > 0
    ensures i >= |SystemDisplay|
  {
    forall j | 1 <= j < |SystemDisplay| && j < |s|
      ensures !OccursAt(s, SystemDisplay, j)
    {
      MarkerHasOneS(j);
      assert s[j] == s[..|SystemDisplay|][j];
      NoOccurrenceByMismatch(s, SystemDisplay, j, 0);
    }
  }

  /** A frame that starts with the system tag keeps the label at the
      front once the marker is stripped. */
  lemma LeadingTagStripped(s: string)
    requires StartsWith(s, SystemTag)
    ensures StartsWith(Replace(s, SystemDisplay, ""), SystemLabel)
  {
    var n := |SystemDisplay|;
    var rest := s[n..];
    assert s[..n] == SystemDisplay by {
      assert s[..n] == s[..21][..n];
    }
    assert s == SystemDisplay + rest;
    ReplaceLeading(SystemDisplay, rest, "");
    assert rest[..8] == SystemLabel by {
      assert rest[..8] == s[..21][n..];
    }
    assert rest == SystemLabel + rest[8..];
    LabelSurvives(rest[8..]);
    assert "" + Replace(rest, SystemDisplay, "") == Replace(rest, SystemDisplay, "");
  }

  /** The system tag starts with the marker. */
  lemma TagStartsWithMarker(s: string, i: nat)
    requires OccursAt(s, SystemTag, i)
    ensures OccursAt(s, SystemDisplay, i)
  {
    assert s[i..i + 13] == s[i..i + 21][..13];
  }

  /** A tag found after a leading marker is found again once that marker
      is stripped. */
  lemma TagAfterLeadingMarker(s: string, i: nat)
    requires StartsWith(s, SystemDisplay) && OccursAt(s, SystemTag, i) && i > 0
    ensures i >= |SystemDisplay|
    ensures OccursAt(s[|SystemDisplay|..], SystemTag, i - |SystemDisplay|)
    ensures Replace(s, SystemDisplay, "") == Replace(s[|SystemDisplay|..], SystemDisplay, "")
  {
    var n := |SystemDisplay|;
    TagStartsWithMarker(s, i);
    MarkerDoesNotOverlap(s, i);
    assert s[n..][i - n..i - n + 21] == s[i..i + 21];
  }

  /** A tag found after the first character, with no marker at the front,
      is found again in the rest, and stripping keeps that character. */
  lemma TagAfterFirst(s: string, i: nat)
    requires !StartsWith(s, SystemDisplay) && OccursAt(s, SystemTag, i) && i > 0
    ensures OccursAt(s[1..], SystemTag, i - 1)
    ensures Replace(s, SystemDisplay, "") == [s[0]] + Replace(s[1..], SystemDisplay, "")
  {
    TagStartsWithMarker(s, i);
    assert s[1..][i - 1..i - 1 + 21] == s[i..i + 21];
  }

  lemma ContainsAfterFirst(c: char, t: string, p: string)
    requires Contains(t, p)
    ensures Contains([c] + t, p)
  {
    assert ([c] + t)[1..] == t;
  }

  /** Wherever the system tag occurs, stripping the marker leaves the
      label somewhere in the text. */
  lemma {:induction false} StrippingKeepsLabel(s: string, i: nat)
    requires OccursAt(s, SystemTag, i)
    ensures Contains(Replace(s, SystemDisplay, ""), SystemLabel)
    decreases |s|
  {
    if i == 0 {
      assert StartsWith(s, SystemTag);
      LeadingTagStripped(s);
    } else if StartsWith(s, SystemDisplay) {
      TagAfterLeadingMarker(s, i);
      StrippingKeepsLabel(s[|SystemDisplay|..], i - |SystemDisplay|);
    } else {
      TagAfterFirst(s, i);
      StrippingKeepsLabel(s[1..], i - 1);
      ContainsAfterFirst(s[0], Replace(s[1..], SystemDisplay, ""), SystemLabel);
    }
  }

  // ---------------------------------------------------------------------
  // User-list replies
  // ---------------------------------------------------------------------

  /** A message carrying the marker yields one name per comma-separated
      piece of what follows the prefix (the comma count plus one), each
      trimmed and free of commas, and the pieces rejoined with commas give
      that text back.  Any other message yields no list. */
  lemma UserListShape(message: string)
    ensures !Contains(message, UserListMarker) ==> UserList(message) == None
    ensures Contains(message, UserListMarker) ==>
      var body := UserListBody(message);
      var pieces := Split(body, ",");
      && UserList(message).Some?
      && |UserList(message).value| == Count(body, ',') + 1
      && Join(pieces, ",") == body
      && forall k :: 0 <= k < |UserList(message).value| ==>
           var name := UserList(message).value[k];
           name == Trim(pieces[k]) && Trimmed(name) && ',' !in name
  {
    if Contains(message, UserListMarker) {
      var body := UserListBody(message);
      var pieces := Split(body, ",");
      SplitCharCount(body, ',');
      SplitCharPieces(body, ',');
      JoinSplitRoundTrip(body, ",");
      forall k | 0 <= k < |pieces|
        ensures Trimmed(Trim(pieces[k])) && ',' !in Trim(pieces[k])
      {
        var i, j := TrimShape(pieces[k]);
        var t := Trim(pieces[k]);
        forall m | 0 <= m < |t|
          ensures t[m] != ','
        {
          assert t[m] == pieces[k][i + m];
        }
      }
    }
  }

  // ---------------------------------------------------------------------
  // The receive loop
  // ---------------------------------------------------------------------

  /** One result of a receive call: a chunk of decoded text (a text or a
      binary frame alike) or a close frame. */
  datatype Received = Data(chunk: string) | Close

  predicate ChunksFit(rs: seq<Received>)
  {
    forall k :: 0 <= k < |rs| ==> rs[k].Data? ==> |rs[k].chunk| <= BufferSize
  }

  /** What successive receive calls can return: any receipts, each data
      chunk at most one buffer.  How a message is cut into chunks is up to
      the transport. */
  type Receipts = rs: seq<Received> | ChunksFit(rs)

  /** The position of the first close frame, or the length when there is
      none. */
  function FirstClose(rs: seq<Received>): (n: nat)
    ensures n <= |rs|
    ensures forall k :: 0 <= k < n ==> rs[k].Data?
    ensures n < |rs| ==> rs[n].Close?
  {
    if rs == [] || rs[0].Close? then 0 else 1 + FirstClose(rs[1..])
  }

  /** What the pump shows for the receipts `rs`, in order. */
  function Shown(rs: seq<Received>, username: string): seq<Rendered>
  {
    seq(FirstClose(rs), k requires 0 <= k < FirstClose(rs) => Classify(rs[k].chunk, username))
  }

  /** `ReceiveMessages`: handles the receipts in order, classifying each
      chunk on its own, and stops at the first close frame without
      classifying it. */
  method ReceiveLoop(rs: seq<Received>, username: string) returns (shown: seq<Rendered>, closed: bool)
    requires ChunksFit(rs)
    ensures closed <==> exists k :: 0 <= k < |rs| && rs[k].Close?
    ensures |shown| == FirstClose(rs)
    ensures forall k :: 0 <= k < |shown| ==> shown[k] == Classify(rs[k].chunk, username)
    ensures forall k :: 0 <= k < |shown| ==> |shown[k].message| <= BufferSize
  {
    var n := FirstClose(rs);
    shown, closed := [], false;
    var i := 0;
    while i < |rs|
      invariant 0 <= i <= n
      invariant |shown| == i
      invariant forall k :: 0 <= k < i ==> shown[k] == Classify(rs[k].chunk, username)
      invariant forall k :: 0 <= k < i ==> |shown[k].message| <= BufferSize
    {
      var r := rs[i];
      if r.Close? {
        closed := true;
        assert i == n;
        return;
      }
      var c := Classify(r.chunk, username);
      shown := shown + [c];
      i := i + 1;
    }
    assert n == |rs|;
  }

  // ---------------------------------------------------------------------
  // The transport's side: frames arrive in pieces of at most one buffer
  // ---------------------------------------------------------------------

  /** What the server sends: a text message or a close frame. */
  datatype Frame = TextFrame(payload: string) | CloseFrame

  /** The pieces in which a receive call hands over a message. */
  function Chunks(m: string): (r: seq<string>)
    ensures |r| >= 1
    decreases |m|
  {
    if |m| <= BufferSize then [m] else [m[..BufferSize]] + Chunks(m[BufferSize..])
  }

  function Concat(parts: seq<string>): string
  {
    if parts == [] then [] else parts[0] + Concat(parts[1..])
  }

  /** The receipts the pump sees for the frames `fs`. */
  function Deliver(fs: seq<Frame>): seq<Received>
  {
    if fs == [] then []
    else (match fs[0]
          case TextFrame(p) => seq(|Chunks(p)|, k requires 0 <= k < |Chunks(p)| => Data(Chunks(p)[k]))
          case CloseFrame => [Close])
         + Deliver(fs[1..])
  }

  /** Every piece fits the buffer, the pieces make up the message, and a
      message longer than the buffer arrives in more than one piece. */
  lemma {:induction false} ChunksShape(m: string)
    ensures forall k :: 0 <= k < |Chunks(m)| ==> |Chunks(m)[k]| <= BufferSize
    ensures Concat(Chunks(m)) == m
    ensures |m| > BufferSize ==> |Chunks(m)| >= 2
    decreases |m|
  {
    if |m| > BufferSize {
      ChunksShape(m[BufferSize..]);
      assert Chunks(m)[1..] == Chunks(m[BufferSize..]);
      assert m == m[..BufferSize] + m[BufferSize..];
    }
  }

  /** The receipts the transport delivers meet the receive loop's bound. */
  lemma {:induction false} DeliverFits(fs: seq<Frame>)
    ensures ChunksFit(Deliver(fs))
  {
    if fs != [] {
      DeliverFits(fs[1..]);
      if fs[0].TextFrame? {
        ChunksShape(fs[0].payload);
      }
    }
  }

  /** No reassembly: a long message is shown as several separately
      classified pieces. */
  lemma LongMessageShownInPieces(m: string, username: string)
    requires |m| > BufferSize
    ensures |Shown(Deliver([TextFrame(m)]), username)| == |Chunks(m)| >= 2
    ensures Shown(Deliver([TextFrame(m)]), username)[0] == Classify(m[..BufferSize], username)
  {
    ChunksShape(m);
    var rs := Deliver([TextFrame(m)]);
    assert [TextFrame(m)][1..] == [];
    assert Deliver([]) == [];
    assert rs == seq(|Chunks(m)|, k requires 0 <= k < |Chunks(m)| => Data(Chunks(m)[k]));
    assert forall k :: 0 <= k < |rs| ==> rs[k].Data?;
    FirstCloseAllData(rs);
  }

  lemma {:induction false} FirstCloseAllData(rs: seq<Received>)
    requires forall k :: 0 <= k < |rs| ==> rs[k].Data?
    ensures FirstClose(rs) == |rs|
  {
    if rs != [] {
      FirstCloseAllData(rs[1..]);
    }
  }

  // ---------------------------------------------------------------------
  // Worked examples
  // ---------------------------------------------------------------------

  /** `(alice)hello` seen by `alice` is her own message. */
  lemma OwnEchoExample()
    ensures Classify("(alice)hello", "alice") == Rendered(OwnMessage, "(alice)hello", None)
  {
    assert StartsWith("(alice)hello", SelfTag("alice"));
    NotContainsMissingChar("(alice)hello", UserListMarker, 'C');
  }

  /** A system notice `SystemDisplay(System)<body>` is shown as the
      system message `(System)<body>`, for any body that holds neither
      marker (here: no `D` and no `C`) and any user whose tag it lacks. */
  lemma SystemNoticeExample(body: string, username: string)
    requires 'D' !in body && 'C' !in body
    requires !Contains(SystemDisplay + SystemLabel + body, SelfTag(username))
    ensures Classify(SystemDisplay + SystemLabel + body, username)
            == Rendered(SystemMessage, SystemLabel + body, None)
  {
    var p := SystemDisplay + SystemLabel + body;
    var rest := SystemLabel + body;
    assert p[..21] == SystemTag;
    assert StartsWith(p, SystemTag);
    assert p == SystemDisplay + rest;
    ReplaceLeading(SystemDisplay, rest, "");
    assert 'D' !in rest && 'C' !in rest;
    NotContainsMissingChar(rest, SystemDisplay, 'D');
    ReplaceAbsent(rest, SystemDisplay, "");
    assert Replace(p, SystemDisplay, "") == "" + rest == rest;
    NotContainsMissingChar(rest, UserListMarker, 'C');
  }

  lemma PrefixRemoved(body: string)
    requires 'S' !in body
    ensures UserListBody(UserListPrefix + body) == body
  {
    ReplaceLeading(UserListPrefix, body, "");
    NotContainsMissingChar(body, UserListPrefix, 'S');
    ReplaceAbsent(body, UserListPrefix, "");
    assert "" + body == body;
  }

  lemma TwoNamesSplit(a: string, b: string)
    requires ',' !in a && ',' !in b
    ensures Split(a + ", " + b, ",") == [a, " " + b]
  {
    assert a + ", " + b == a + [','] + (" " + b);
    SplitCharAt(a, ',', " " + b, []);
    assert ',' !in " " + b;
    SplitCharAbsent(" " + b, ',', []);
    assert [] + a == a && [] + (" " + b) == " " + b;
  }

  lemma TwoNamesTrimmed(a: string, b: string)
    requires Trimmed(a) && Trimmed(b)
    ensures TrimAll([a, " " + b]) == [a, b]
  {
    TrimOfPadded("", a, "");
    assert "" + a + "" == a;
    assert AllWhiteSpace(" ");
    TrimOfPadded(" ", b, "");
    assert " " + b + "" == " " + b;
  }

  lemma ListMarkerFound(body: string)
    ensures Contains(UserListPrefix + body, UserListMarker)
  {
    var p := UserListPrefix + body;
    assert p[8..8 + |UserListMarker|] == UserListMarker;
    ContainsIff(p, UserListMarker);
    assert OccursAt(p, UserListMarker, 8);
  }

  /** A reply `(System)ConnectedUserList: <a>, <b>` renders the list
      `[a, b]`, for names without commas, without an `S` or a `D` and
      without surrounding whitespace. */
  lemma UserListExample(a: string, b: string, username: string)
    requires Trimmed(a) && Trimmed(b)
    requires ',' !in a && 'S' !in a && 'D' !in a
    requires ',' !in b && 'S' !in b && 'D' !in b
    requires !Contains(UserListPrefix + (a + ", " + b), SelfTag(username))
    ensures Classify(UserListPrefix + (a + ", " + b), username)
            == Rendered(PlainMessage, a + ", " + b, Some([a, b]))
  {
    var body := a + ", " + b;
    var p := UserListPrefix + body;
    assert 'D' !in p && 'S' !in body;
    NotContainsMissingChar(p, SystemTag, 'D');
    assert Highlight(p, username) == (PlainMessage, p);
    ListMarkerFound(body);
    PrefixRemoved(body);
    TwoNamesSplit(a, b);
    TwoNamesTrimmed(a, b);
  }
}
