/** Where the two submission handlers, server.js and
    public/api/submit.php, behave differently on the same input. Each
    lemma states both sides. */
module Divergence {

  import opened Wrappers
  import opened Text
  import opened Submission
  import ServerJs
  import ServerLog
  import SubmitPhp

  /** The honeypot: JavaScript truthiness against PHP `!empty`. On a
      string `website` field the two disagree exactly on "0", which only
      the Node handler treats as a bot. */
  lemma HoneypotsDisagreeOnZero(s: string)
    ensures ServerJs.IsBot(map["website" := ServerJs.Str(s)]) <==> s != ""
    ensures SubmitPhp.IsBot(map["website" := SubmitPhp.PStr(s)]) <==> s != "" && s != "0"
    ensures ServerJs.IsBot(map["website" := ServerJs.Str(s)]) != SubmitPhp.IsBot(map["website" := SubmitPhp.PStr(s)])
            <==> s == "0"
  {
  }

  /** Replacement before trimming (Node) against trimming before
      replacement (PHP): a control byte that `trim` keeps, at the end of
      clean text, vanishes in the Node handler and becomes a trailing
      space in the PHP one. */
  lemma TrailingControl(s: string, c: char)
    requires SubmitPhp.EndsInKeptControl(s, c)
    ensures ServerJs.CleanString(s + [c]) == ServerJs.CleanString(s)
    ensures SubmitPhp.CleanValue(SubmitPhp.PStr(s + [c])) == s + " "
  {
    var m := MapWhere(s, Control, ' ');
    assert MapWhere(s + [c], Control, ' ') == m + [' '];
    TrimSnoc(m, JsSpace, ' ');
    SubmitPhp.TrailingControlBecomesSpace(s, c);
  }

  /** Structured values: the Node handler stores the JSON text of an
      object whole, the PHP handler cuts the JSON text of an array to 4000
      bytes. */
  lemma StructuredValueLength(json: string, size: nat)
    requires |json| > SubmitPhp.MaxBytes
    ensures ServerJs.CleanValue(ServerJs.Obj(Some(json))) == json
    ensures |SubmitPhp.CleanValue(SubmitPhp.PArray(size, Some(json)))| <= SubmitPhp.MaxBytes < |json|
  {
  }

  /** A failed notification: the Node handler replies with the mailer's
      own message ("Email failed" when it has none), the PHP handler
      always with the same sentence. */
  lemma MailFailureReplies(t: ServerJs.Transport, message: Option<string>)
    requires t.Transport?
    ensures ServerJs.ReplyAfterStoring(t, ServerJs.Rejected(message))
            == Reply(500, Error(message.GetOr("Email failed")))
    ensures message != Some(SubmitPhp.MailFailedReply) ==>
              ServerJs.ReplyAfterStoring(t, ServerJs.Rejected(message)).body != Error(SubmitPhp.MailFailedReply)
  {
  }

  /** The header: the Node handler writes it only when the log file does
      not exist, so an existing empty file gets a row and no header; the
      PHP handler writes it whenever the file is empty. */
  lemma HeaderConditions(keys: seq<string>, values: seq<string>)
    ensures ServerLog.AppendedCsv(Some(""), keys, values) == ServerLog.RowLine(values) + "\n"
    ensures ServerLog.AppendedCsv(None, keys, values)
            == ServerLog.HeaderLine(keys) + "\n" + ServerLog.RowLine(values) + "\n"
    ensures SubmitPhp.LogAfter([], keys, values) == [keys, values]
  {
  }
}
