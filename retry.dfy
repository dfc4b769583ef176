/**
 * The two retry loops of t65.py: connecting to the database at start-up
 * (t65.py:51-80) and the rate-limit retry around a chat completion
 * (t65.py:84-98). Each attempt's outcome is a parameter: `attempt(k)` is what
 * the k-th try (counting from 0) does. The sleeps between tries are not
 * modelled.
 */
module Retry {
  import opened Wrappers

  /** An open database connection. */
  datatype Connection = Connection(handle: nat)

  const MaxConnectTries: nat := 10

  /** `connect_to_database()`: try up to ten times, stop at the first success;
      after ten failures the function falls off its loop and returns None. */
  method ConnectToDatabase(attempt: nat -> Option<Connection>) returns (conn: Option<Connection>, tries: nat)
    ensures 1 <= tries <= MaxConnectTries
    ensures forall k :: 0 <= k < tries - 1 ==> attempt(k).None?
    ensures conn == attempt(tries - 1)
    ensures conn.None? ==> tries == MaxConnectTries
  {
    var retryCount: nat := 0;
    conn := None;
    tries := 0;
    while retryCount < MaxConnectTries
      invariant retryCount == tries <= MaxConnectTries
      invariant forall k :: 0 <= k < tries ==> attempt(k).None?
      invariant conn.None?
    {
      var result := attempt(retryCount);
      tries := tries + 1;
      if result.Some? {
        conn := result;
        return;
      }
      retryCount := retryCount + 1;
    }
  }

  /** The module-level check after connecting: no connection means exit
      status 1; otherwise start-up goes on. */
  function StartupExit(conn: Option<Connection>): (r: Option<nat>)
    ensures r.Some? <==> conn.None?
    ensures r.Some? ==> r.value == 1
  {
    if conn.None? then Some(1) else None
  }

  /** Start-up exits with status 1 exactly when all ten tries fail. */
  method Startup(attempt: nat -> Option<Connection>) returns (exit: Option<nat>, conn: Option<Connection>)
    ensures exit == Some(1) <==> forall k :: 0 <= k < MaxConnectTries ==> attempt(k).None?
    ensures exit.None? <==> conn.Some?
  {
    var tries;
    conn, tries := ConnectToDatabase(attempt);
    exit := StartupExit(conn);
  }

  /** What one `chat_llm.chat(prompt)` call does. */
  datatype Attempt = Content(text: string) | RateLimited | OtherError

  /** How `completion_with_retry` ends. */
  datatype Completion = Returned(text: string) | RaisedRateLimit | RaisedOther

  const MaxRetries: nat := 3

  /** `completion_with_retry(prompt)`: a rate-limit error is retried up to
      three times, so the chat is called at most four times; the fourth
      rate-limit error is re-raised, and any other error escapes at once. */
  method CompletionWithRetry(chat: nat -> Attempt) returns (outcome: Completion, calls: nat)
    ensures 1 <= calls <= MaxRetries + 1
    ensures forall k :: 0 <= k < calls - 1 ==> chat(k).RateLimited?
    ensures chat(calls - 1).Content? <==> outcome.Returned?
    ensures chat(calls - 1).Content? ==> outcome.text == chat(calls - 1).text
    ensures chat(calls - 1).OtherError? <==> outcome.RaisedOther?
    ensures outcome.RaisedRateLimit? <==> chat(calls - 1).RateLimited?
    ensures outcome.RaisedRateLimit? ==> calls == MaxRetries + 1
  {
    var retries: nat := 0;
    while true
      invariant retries <= MaxRetries
      invariant forall k :: 0 <= k < retries ==> chat(k).RateLimited?
      decreases MaxRetries - retries
    {
      var attempt := chat(retries);
      match attempt {
        case Content(text) =>
          return Returned(text), retries + 1;
        case OtherError =>
          return RaisedOther, retries + 1;
        case RateLimited =>
          if retries >= MaxRetries {
            return RaisedRateLimit, retries + 1;
          }
          retries := retries + 1;
      }
    }
  }
}
