/**
 * The per-browser session state the chat keeps in `localStorage`
 * (js/main.js:366-411, 714-726): message histories, the most-recent-first
 * list of chats with their previews, the last verse read in each chat, and
 * the set of surahs shown in full (the khatma progress).
 *
 * `SessionStore` holds one field per storage key, with structured values
 * in place of JSON text. The clock is a parameter of every operation that
 * reads it.
 */
module Session {
  import opened Wrappers
  import opened JsText
  import opened Corpus

  /** `MAX_RECENT_CHATS`. */
  const MaxRecentChats: nat := 7

  /** The number of characters of a message kept in a chat's preview. */
  const PreviewLength: nat := 35

  const Ellipsis: string := "..."

  /** "New conversation": the preview of a chat that has no text of its own yet. */
  const NewChatPreview: string := "محادثة جديدة"

  datatype Sender = User | System | Quran

  /** One stored chat message; `timestamp` is the clock reading when it was saved. */
  datatype Message = Message(sender: Sender, content: string, isHtml: bool, timestamp: int)

  /** One entry of the recent-chats list. */
  datatype RecentChat = RecentChat(id: string, timestamp: int, preview: string)

  /**
   * The `data-surah-idx` and `data-ayah-num` attributes of the last verse
   * element in a verse message, as the page extracts them.
   */
  datatype AyahAttributes = AyahAttributes(surahIdx: string, ayahNum: string)

  // ------------------------------------------------------------ previews

  /** `text.substring(0, 35) + (text.length > 35 ? '...' : '')`. */
  function Preview(text: string): (r: string)
    ensures |r| <= PreviewLength + |Ellipsis|
    ensures |text| <= PreviewLength ==> r == text
    ensures |text| > PreviewLength ==> |r| == PreviewLength + |Ellipsis| && r[PreviewLength..] == Ellipsis
    ensures r[..Min(|text|, PreviewLength)] == text[..Min(|text|, PreviewLength)]
  {
    Take(text, PreviewLength) + (if |text| > PreviewLength then Ellipsis else "")
  }

  function Min(a: nat, b: nat): nat {
    if a <= b then a else b
  }

  /** Cutting a preview again changes nothing. */
  lemma PreviewIdempotent(text: string)
    ensures Preview(Preview(text)) == Preview(text)
  {
    if |text| > PreviewLength {
      var p := Preview(text);
      assert p[..PreviewLength] + p[PreviewLength..] == p;
    }
  }

  /** The new-chat placeholder is short enough to be its own preview. */
  lemma NewChatPreviewFits()
    ensures Preview(NewChatPreview) == NewChatPreview
  {
    assert |NewChatPreview| == 12;
  }

  // ------------------------------------------------------------ the recent-chats list

  /** `recentChats.filter(c => c.id !== id)`. */
  function Without(list: seq<RecentChat>, id: string): (r: seq<RecentChat>)
    ensures |r| <= |list|
    ensures forall c :: c in r <==> c in list && c.id != id
  {
    if list == [] then []
    else (if list[0].id == id then [] else [list[0]]) + Without(list[1..], id)
  }

  /** The filter keeps order: filtering a concatenation concatenates the filtered parts. */
  lemma {:induction false} WithoutAppend(a: seq<RecentChat>, b: seq<RecentChat>, id: string)
    ensures Without(a + b, id) == Without(a, id) + Without(b, id)
  {
    if a == [] {
      assert a + b == b;
    } else {
      assert (a + b)[0] == a[0];
      assert (a + b)[1..] == a[1..] + b;
      WithoutAppend(a[1..], b, id);
    }
  }

  /** Entry `k` of the list is kept, after the kept entries before it, exactly when it is not for `id`. */
  lemma WithoutSnoc(list: seq<RecentChat>, id: string, k: nat)
    requires k < |list|
    ensures Without(list[..k + 1], id) == Without(list[..k], id) + (if list[k].id != id then [list[k]] else [])
  {
    assert list[..k + 1] == list[..k] + [list[k]];
    WithoutAppend(list[..k], [list[k]], id);
  }

  /** A list with no entry for `id` loses nothing to the filter. */
  lemma {:induction false} WithoutAbsent(list: seq<RecentChat>, id: string)
    requires forall j :: 0 <= j < |list| ==> list[j].id != id
    ensures Without(list, id) == list
  {
    if list != [] {
      WithoutAbsent(list[1..], id);
    }
  }

  /**
   * The entry `updateRecentChatTimestampAndPreview` puts first: an existing
   * chat gets the new time and, when a non-empty text is passed, that text's
   * preview; a new chat gets the preview of the text or of the placeholder.
   */
  function ChatEntry(list: seq<RecentChat>, id: string, text: Option<string>, now: int): (r: RecentChat)
    ensures r.id == id && r.timestamp == now
  {
    match Find(list, (c: RecentChat) => c.id == id)
    case Some(info) => RecentChat(info.id, now, if Truthy(text) then Preview(text.value) else info.preview)
    case None => RecentChat(id, now, Preview(if Truthy(text) then text.value else NewChatPreview))
  }

  /** The stored list after `updateRecentChatTimestampAndPreview(id, text)`. */
  function RecentAfter(list: seq<RecentChat>, id: string, text: Option<string>, now: int): (r: seq<RecentChat>)
    ensures 1 <= |r| <= MaxRecentChats
    ensures r[0] == ChatEntry(list, id, text, now)
  {
    var entry := ChatEntry(list, id, text, now);
    if Find(list, (c: RecentChat) => c.id == id).Some? then Take([entry] + Without(list, id), MaxRecentChats)
    else Take([entry] + list, MaxRecentChats)
  }

  /**
   * The updated chat comes first, with the new time; behind it come the
   * other chats in their old order, every entry for `id` removed, cut to
   * seven in all.
   */
  lemma RecentAfterShape(list: seq<RecentChat>, id: string, text: Option<string>, now: int)
    ensures var r := RecentAfter(list, id, text, now);
      r[0].id == id && r[0].timestamp == now
      && r[1..] == Take(Without(list, id), MaxRecentChats - 1)
  {
    var r := RecentAfter(list, id, text, now);
    var rest := Without(list, id);
    if Find(list, (c: RecentChat) => c.id == id).None? {
      WithoutAbsent(list, id);
    }
    assert r == Take([r[0]] + rest, MaxRecentChats);
    assert r[1..] == Take(rest, MaxRecentChats - 1);
  }

  /**
   * The preview rules: a non-empty text sets the preview; otherwise an
   * existing chat keeps its preview and a new chat shows the placeholder.
   */
  lemma RecentAfterPreview(list: seq<RecentChat>, id: string, text: Option<string>, now: int)
    ensures var p := RecentAfter(list, id, text, now)[0].preview;
      if Truthy(text) then p == Preview(text.value)
      else match Find(list, (c: RecentChat) => c.id == id)
        case Some(info) => p == info.preview
        case None => p == NewChatPreview
  {
    NewChatPreviewFits();
  }

  /** No two entries of the list are for the same chat. */
  predicate UniqueIds(list: seq<RecentChat>) {
    forall i, j :: 0 <= i < j < |list| ==> list[i].id != list[j].id
  }

  lemma {:induction false} WithoutKeepsUnique(list: seq<RecentChat>, id: string)
    requires UniqueIds(list)
    ensures UniqueIds(Without(list, id))
  {
    if list != [] {
      WithoutKeepsUnique(list[1..], id);
      var rest := Without(list[1..], id);
      assert forall c :: c in rest ==> c in list[1..];
      assert forall j :: 0 < j < |list| ==> list[0].id != list[j].id;
    }
  }

  /** Updating the list never lists a chat twice. */
  lemma RecentAfterKeepsUnique(list: seq<RecentChat>, id: string, text: Option<string>, now: int)
    requires UniqueIds(list)
    ensures UniqueIds(RecentAfter(list, id, text, now))
  {
    var r := RecentAfter(list, id, text, now);
    RecentAfterShape(list, id, text, now);
    WithoutKeepsUnique(list, id);
    var rest := Without(list, id);
    assert forall j :: 1 <= j < |r| ==> r[j] == rest[j - 1];
    assert forall j :: 0 <= j < |rest| ==> rest[j].id != id by {
      assert forall j :: 0 <= j < |rest| ==> rest[j] in rest;
    }
  }

  // ------------------------------------------------------------ the preview a message passes on

  /** `history.filter(m => m.sender === 'user').length`. */
  function UserMessages(history: seq<Message>): (r: nat)
    ensures r <= |history|
    ensures r == 0 <==> forall j :: 0 <= j < |history| ==> history[j].sender != User
  {
    if history == [] then 0
    else UserMessages(history[..|history| - 1]) + (if history[|history| - 1].sender == User then 1 else 0)
  }

  /**
   * The text `saveMessageToHistory` hands to the recent-chats update, given
   * the history with the new message already appended: the user's first
   * message passes its own text, the first message of any other kind passes
   * the placeholder, and every later message passes nothing.
   */
  function PreviewArgument(history: seq<Message>, sender: Sender, previewContent: string): (r: Option<string>)
    // the chat's first user message passes its own text
    ensures (history != [] && history[|history| - 1].sender == sender == User
             && UserMessages(history[..|history| - 1]) == 0)
            ==> r == Some(previewContent)
    // a chat's very first message, when it is not the user's, passes the placeholder
    ensures |history| == 1 && history[0].sender == sender != User ==> r == Some(NewChatPreview)
    // any later message passes nothing
    ensures (|history| >= 2 && history[|history| - 1].sender == sender
             && (sender != User || UserMessages(history[..|history| - 1]) >= 1))
            ==> r.None?
  {
    if sender == User && UserMessages(history) <= 1 then Some(previewContent)
    else if |history| == 1 then Some(NewChatPreview)
    else None
  }

  /** The first user message of a chat becomes its preview, whatever came before it. */
  lemma FirstUserMessageSetsPreview(history: seq<Message>, content: string, isHtml: bool, previewContent: string,
                                    list: seq<RecentChat>, id: string, now: int)
    requires UserMessages(history) == 0 && previewContent != ""
    ensures var h := history + [Message(User, content, isHtml, now)];
      RecentAfter(list, id, PreviewArgument(h, User, previewContent), now)[0].preview == Preview(previewContent)
  {
    var h := history + [Message(User, content, isHtml, now)];
    assert h[..|h| - 1] == history;
  }

  /** A chat whose first message is not the user's shows the placeholder, even over a preview it already had. */
  lemma FirstOtherMessageSetsPlaceholder(m: Message, previewContent: string, list: seq<RecentChat>, id: string, now: int)
    requires m.sender != User
    ensures RecentAfter(list, id, PreviewArgument([] + [m], m.sender, previewContent), now)[0].preview == NewChatPreview
  {
    NewChatPreviewFits();
  }

  /** After the first user message, further messages keep an existing chat's preview and only refresh its time. */
  lemma LaterMessagesKeepPreview(history: seq<Message>, m: Message, previewContent: string,
                                 list: seq<RecentChat>, id: string, now: int, info: RecentChat)
    requires UserMessages(history) >= 1
    requires Find(list, (c: RecentChat) => c.id == id) == Some(info)
    ensures var r := RecentAfter(list, id, PreviewArgument(history + [m], m.sender, previewContent), now);
      r[0] == RecentChat(id, now, info.preview)
  {
    var h := history + [m];
    assert h[..|h| - 1] == history;
    assert PreviewArgument(h, m.sender, previewContent).None?;
  }

  // ------------------------------------------------------------ khatma

  /** The read-set after surah `index` is shown in full. */
  function MarkRead(read: set<string>, index: string): (r: set<string>)
    ensures index in r && read <= r
    ensures |r| == if index in read then |read| else |read| + 1
  {
    read + {index}
  }

  /** Marking the same surah twice is marking it once. */
  lemma MarkReadIdempotent(read: set<string>, index: string)
    ensures MarkRead(MarkRead(read, index), index) == MarkRead(read, index)
  {
  }

  /** The surahs of a sequence of indices number at most its length. */
  lemma {:induction false} ElementsBound(read: set<string>, indices: seq<string>)
    requires forall x :: x in read ==> x in indices
    ensures |read| <= |indices|
  {
    if indices != [] {
      var rest := read - {indices[0]};
      assert forall x :: x in rest ==> x in indices[1..] by {
        forall x | x in rest ensures x in indices[1..] {
          var k :| 0 <= k < |indices| && indices[k] == x;
          assert k != 0;
          assert indices[1..][k - 1] == x;
        }
      }
      ElementsBound(rest, indices[1..]);
    } else {
      assert read == {};
    }
  }

  /** The surah numbers of the table, in order. */
  function Indices(table: seq<SurahMeta>): (r: seq<string>)
    ensures |r| == |table| && forall k :: 0 <= k < |table| ==> r[k] == table[k].index
  {
    seq(|table|, k requires 0 <= k < |table| => table[k].index)
  }

  /**
   * When only surahs of the table are marked (a full surah is only shown
   * after it is found in the table), the count behind the progress
   * percentage never exceeds the table's size: 114 for the shipped table.
   */
  lemma KhatmaCountBounded(table: seq<SurahMeta>, read: set<string>)
    requires forall x :: x in read ==> exists k :: 0 <= k < |table| && table[k].index == x
    ensures |read| <= |table|
  {
    var ix := Indices(table);
    forall x | x in read ensures x in ix {
      var k :| 0 <= k < |table| && table[k].index == x;
      assert ix[k] == x;
    }
    ElementsBound(read, ix);
  }

  // ------------------------------------------------------------ the store

  /** The `localStorage` keys the chat uses, as fields. */
  class SessionStore {
    /** One key per chat id: its message history. */
    var histories: map<string, seq<Message>>
    /** `quranRecentChats`. */
    var recentChats: seq<RecentChat>
    /** `lastRead_<chat id>`. */
    var lastRead: map<string, ReadMark>
    /** `quranKhatmaReadSurahs`. */
    var readSurahs: set<string>

    constructor ()
      ensures histories == map[] && recentChats == [] && lastRead == map[] && readSurahs == {}
    {
      histories := map[];
      recentChats := [];
      lastRead := map[];
      readSurahs := {};
    }

    /** A chat's stored history; a chat never saved has an empty one. */
    function History(chatId: string): (r: seq<Message>)
      reads this
      ensures chatId !in histories ==> r == []
    {
      if chatId in histories then histories[chatId] else []
    }

    /** `getLastReadAyah(chatID)`: the stored mark, or nothing. */
    function LastRead(chatId: string): (r: Option<ReadMark>)
      reads this
      ensures r.Some? <==> chatId in lastRead
      ensures r.Some? ==> r.value == lastRead[chatId]
    {
      if chatId in lastRead then Some(lastRead[chatId]) else None
    }

    /** `saveLastReadAyah`: overwrite the chat's mark. */
    method SaveLastRead(chatId: string, surahIndex: string, ayahNumber: Option<int>)
      modifies this
      ensures lastRead == old(lastRead)[chatId := ReadMark(surahIndex, ayahNumber)]
      ensures LastRead(chatId) == Some(ReadMark(surahIndex, ayahNumber))
      ensures histories == old(histories) && recentChats == old(recentChats) && readSurahs == old(readSurahs)
    {
      lastRead := lastRead[chatId := ReadMark(surahIndex, ayahNumber)];
    }

    /** `updateRecentChatTimestampAndPreview(chatID, text)`. */
    method UpdateRecentChat(chatId: string, text: Option<string>, now: int)
      modifies this
      ensures recentChats == RecentAfter(old(recentChats), chatId, text, now)
      ensures histories == old(histories) && lastRead == old(lastRead) && readSurahs == old(readSurahs)
    {
      var list := recentChats;
      var chatInfo := Find(list, (c: RecentChat) => c.id == chatId);
      if chatInfo.Some? {
        var info := chatInfo.value.(timestamp := now);
        if Truthy(text) {
          info := info.(preview := Preview(text.value));
        }
        list := Without(list, chatId);
        list := [info] + list;
      } else {
        var preview := if Truthy(text) then text.value else NewChatPreview;
        list := [RecentChat(chatId, now, Preview(preview))] + list;
      }
      recentChats := Take(list, MaxRecentChats);
    }

    /**
     * `saveMessageToHistory`: append the message to the chat's history,
     * update the recent-chats list with the preview rules, and, for a verse
     * message, remember the last verse it shows. An empty chat id saves
     * nothing. `plainText` is the message with its HTML tags stripped, and
     * `lastAyah` the attributes of its last verse element, both as the page
     * computes them.
     */
    method SaveMessage(chatId: string, sender: Sender, content: string, isHtml: bool,
                       plainText: string, lastAyah: Option<AyahAttributes>, now: int)
      modifies this
      ensures chatId == "" ==>
        histories == old(histories) && recentChats == old(recentChats) && lastRead == old(lastRead)
      ensures chatId != "" ==>
        var h := old(History(chatId)) + [Message(sender, content, isHtml, now)];
        && histories == old(histories)[chatId := h]
        && recentChats == RecentAfter(old(recentChats), chatId,
             PreviewArgument(h, sender, if isHtml then plainText else content), now)
        && lastRead == if sender == Quran && isHtml && lastAyah.Some?
             then old(lastRead)[chatId := ReadMark(lastAyah.value.surahIdx, ParseInt(lastAyah.value.ayahNum))]
             else old(lastRead)
      ensures readSurahs == old(readSurahs)
    {
      if chatId == "" {
        return;
      }
      var history := History(chatId);
      history := history + [Message(sender, content, isHtml, now)];
      histories := histories[chatId := history];

      var previewContent := if isHtml then plainText else content;
      UpdateRecentChat(chatId, PreviewArgument(history, sender, previewContent), now);

      if sender == Quran && isHtml && lastAyah.Some? {
        SaveLastRead(chatId, lastAyah.value.surahIdx, ParseInt(lastAyah.value.ayahNum));
      }
    }

    /**
     * `updateKhatmaProgressOnSurahView`: add the surah to the read-set;
     * `wrote` says whether the store was written, which happens only the
     * first time.
     */
    method MarkSurahRead(surahIndex: string) returns (wrote: bool)
      modifies this
      ensures wrote <==> surahIndex !in old(readSurahs)
      ensures readSurahs == MarkRead(old(readSurahs), surahIndex)
      ensures ReadCount() == old(ReadCount()) + (if wrote then 1 else 0)
      ensures histories == old(histories) && recentChats == old(recentChats) && lastRead == old(lastRead)
    {
      wrote := surahIndex !in readSurahs;
      if wrote {
        readSurahs := readSurahs + {surahIndex};
      }
    }

    /** `getKhatmaProgress` before the division: how many surahs have been shown in full. */
    function ReadCount(): (r: nat)
      reads this
      ensures r == |readSurahs|
    {
      |readSurahs|
    }
  }
}
