/**
 * The per-session state the page keeps between reruns: the links found on
 * the last search, the loaded document's text and name, and the chat history.
 *
 * The question-answering call is not modelled: its answer is a parameter,
 * `None` when the call raised (it is not guarded, so the user's question is
 * already recorded by then).
 */
module ChatSession {
  import opened Wrappers
  import opened PdfLinks

  datatype Role = User | Ai

  /** One line of the chat: who spoke and what was said. */
  datatype ChatEntry = ChatEntry(role: Role, message: string)

  /** The assistant's first line after a document is loaded. */
  function Greeting(name: string): string {
    "'" + name + "' 파일 내용을 학습했습니다. 무엇이든 물어보세요!"
  }

  /** After the greeting, every reply of the assistant directly follows a question of the user. */
  ghost predicate RepliesFollowQuestions(history: seq<ChatEntry>) {
    forall i :: 0 < i < |history| && history[i].role == Ai ==> history[i - 1].role == User
  }

  class Session {
    var foundPdfs: seq<PdfLink>
    var pdfText: Option<string>
    var currentPdfName: Option<string>
    var chatHistory: seq<ChatEntry>

    /**
     * Without a document there is no name and no history; with one, the text
     * is non-empty and the history opens with the greeting for its name.
     */
    ghost predicate Valid()
      reads this
    {
      (pdfText.None? ==> currentPdfName.None? && chatHistory == []) &&
      (pdfText.Some? ==>
        pdfText.value != "" && currentPdfName.Some? && chatHistory != [] &&
        chatHistory[0] == ChatEntry(Ai, Greeting(currentPdfName.value))) &&
      RepliesFollowQuestions(chatHistory)
    }

    /** A fresh session: nothing found, nothing loaded, no history (lines 120-123). */
    constructor ()
      ensures Valid()
      ensures foundPdfs == [] && pdfText == None && currentPdfName == None && chatHistory == []
    {
      foundPdfs := [];
      pdfText := None;
      currentPdfName := None;
      chatHistory := [];
    }

    /**
     * The search button: with a target URL, the links found there are kept,
     * unless there are none. `pdfs` is what `get_pdf_links` returned for it.
     */
    method Search(targetUrl: string, pdfs: seq<PdfLink>) returns (found: bool)
      requires Valid()
      modifies this
      ensures Valid()
      ensures found <==> targetUrl != "" && pdfs != []
      ensures foundPdfs == if found then pdfs else old(foundPdfs)
      ensures pdfText == old(pdfText) && currentPdfName == old(currentPdfName)
      ensures chatHistory == old(chatHistory)
    {
      found := false;
      if targetUrl != "" {
        if pdfs != [] {
          foundPdfs := pdfs;
          found := true;
        }
      }
    }

    /**
     * The analyse button for a link chosen among those found: with an API key
     * and a non-empty extracted text, the text and the link's name replace the
     * old ones and the history restarts with the greeting alone, however long
     * it was. `textContent` is what `download_and_parse_pdf` returned.
     */
    method Load(selected: PdfLink, apiKey: string, textContent: Option<string>) returns (loaded: bool)
      requires Valid()
      requires selected in foundPdfs
      modifies this
      ensures Valid()
      ensures loaded <==> apiKey != "" && textContent.Some? && textContent.value != ""
      ensures loaded ==>
        pdfText == textContent && currentPdfName == Some(selected.name) &&
        chatHistory == [ChatEntry(Ai, Greeting(selected.name))]
      ensures !loaded ==>
        pdfText == old(pdfText) && currentPdfName == old(currentPdfName) && chatHistory == old(chatHistory)
      ensures foundPdfs == old(foundPdfs)
    {
      loaded := false;
      if apiKey != "" {
        if textContent.Some? && textContent.value != "" {
          pdfText := textContent;
          currentPdfName := Some(selected.name);
          chatHistory := [ChatEntry(Ai, Greeting(selected.name))];
          loaded := true;
        }
      }
    }

    /**
     * A question typed into the chat, which is shown only once a document is
     * loaded: the question is recorded as the user's, then the answer as the
     * assistant's. Nothing already in the history changes.
     */
    method Ask(userQuery: string, answer: Option<string>) returns (asked: bool)
      requires Valid()
      modifies this
      ensures Valid()
      ensures asked <==> old(pdfText).Some? && userQuery != ""
      ensures chatHistory ==
        if !asked then old(chatHistory)
        else if answer.Some? then old(chatHistory) + [ChatEntry(User, userQuery), ChatEntry(Ai, answer.value)]
        else old(chatHistory) + [ChatEntry(User, userQuery)]
      ensures pdfText == old(pdfText) && currentPdfName == old(currentPdfName) && foundPdfs == old(foundPdfs)
    {
      asked := false;
      if pdfText.Some? && pdfText.value != "" {
        if userQuery != "" {
          chatHistory := chatHistory + [ChatEntry(User, userQuery)];
          if answer.Some? {
            chatHistory := chatHistory + [ChatEntry(Ai, answer.value)];
          }
          asked := true;
        }
      }
    }
  }

  /**
   * A session driven through search, load and two questions: the history is
   * the greeting followed by the two exchanges in order.
   */
  method Conversation(link: PdfLink, text: string, q1: string, a1: string, q2: string, a2: string)
    returns (history: seq<ChatEntry>)
    requires text != "" && q1 != "" && q2 != ""
    ensures history == [ChatEntry(Ai, Greeting(link.name)),
                        ChatEntry(User, q1), ChatEntry(Ai, a1),
                        ChatEntry(User, q2), ChatEntry(Ai, a2)]
  {
    var s := new Session();
    var found := s.Search("https://www.kw.ac.kr/notice", [link]);
    var loaded := s.Load(link, "key", Some(text));
    var asked := s.Ask(q1, Some(a1));
    asked := s.Ask(q2, Some(a2));
    history := s.chatHistory;
  }
}
