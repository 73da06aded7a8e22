/** The branch structure of `analyzeWeeklyUpdates`: an empty list of
    updates is answered with a fixed message before any call to the
    text-generation service; otherwise the report is what that service
    returns, or a fixed error text followed by the error's message. */
module Report {
  import opened PageTree

  /** "There were no updates this week." */
  const NoUpdatesMessage: string := "今週は更新がありませんでした。"

  /** "An error occurred while generating the weekly report: " */
  const GenerationErrorPrefix: string := "週報の生成中にエラーが発生しました: "

  /** The outcome of the chat-completion request: the content of the
      first choice's message, or the message of the error it raised. The
      request itself is made outside this model. */
  datatype Completion = Completed(content: string) | Failed(message: string)

  /** The report text. `completion` stands for the service's answer; it
      is consulted only when there is at least one update. */
  function AnalyzeWeeklyUpdates(updates: seq<PageUpdate>, completion: Completion): (report: string)
    ensures |updates| == 0 ==> report == NoUpdatesMessage
    ensures |updates| != 0 && completion.Completed? ==> report == completion.content
    ensures |updates| != 0 && completion.Failed? ==> report == GenerationErrorPrefix + completion.message
  {
    if |updates| == 0 then NoUpdatesMessage
    else
      match completion
      case Completed(content) => content
      case Failed(message) => GenerationErrorPrefix + message
  }

  /** Without updates the report is the fixed message, whatever the
      service would have answered. */
  lemma EmptyReportIgnoresGenerator(c1: Completion, c2: Completion)
    ensures AnalyzeWeeklyUpdates([], c1) == AnalyzeWeeklyUpdates([], c2) == NoUpdatesMessage
  {
  }

  /** A scan of a workspace in which nothing was edited after the
      watermark ends in the fixed message, whatever the service would
      have answered. */
  lemma QuietWeekReport(store: Store, watermark: int, roots: seq<PageId>, maxDepth: nat, completion: Completion)
    requires forall p :: p in store ==> store[p].lastEditedTime <= watermark
    ensures WalkAll(store, watermark, roots, 0, maxDepth) == []
    ensures AnalyzeWeeklyUpdates(WalkAll(store, watermark, roots, 0, maxDepth), completion) == NoUpdatesMessage
  {
    QuietWorkspaceNoUpdates(store, watermark, roots, 0, maxDepth);
  }
}
