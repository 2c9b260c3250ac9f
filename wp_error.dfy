/**
 * The host's error collection (WordPress's `WP_Error`) as far as the plugin
 * uses it: a map from error code to the list of messages recorded under it.
 * `add` appends a message to its code's list and `remove` drops the code.
 */
module WpError {

  type ErrorMap = map<string, seq<string>>

  /** The messages recorded under `code`; none when the code is absent. */
  function MessagesOf(errors: ErrorMap, code: string): seq<string> {
    if code in errors then errors[code] else []
  }

  /** Whether `code` is absent from both maps or maps to the same messages in both. */
  predicate SameOnCode(before: ErrorMap, after: ErrorMap, code: string) {
    (code !in before && code !in after) || (code in before && code in after && before[code] == after[code])
  }

  /** The map after `add(code, message)`: only `code` changes, and it gains `message` at the end. */
  function WithAdded(errors: ErrorMap, code: string, message: string): (r: ErrorMap)
    ensures r.Keys == errors.Keys + {code}
    ensures MessagesOf(r, code) == MessagesOf(errors, code) + [message]
    ensures forall c | c != code :: SameOnCode(errors, r, c)
  {
    errors[code := MessagesOf(errors, code) + [message]]
  }

  /** The map after `remove` of every code in `codes`: those are gone and nothing else changes. */
  function WithRemoved(errors: ErrorMap, codes: set<string>): (r: ErrorMap)
    ensures r.Keys == errors.Keys - codes
    ensures forall c | c !in codes :: SameOnCode(errors, r, c)
  {
    errors - codes
  }

  class ErrorCollection {
    var errors: ErrorMap

    constructor ()
      ensures errors == map[]
    {
      errors := map[];
    }

    /** `$errors->add($code, $message)`. */
    method Add(code: string, message: string)
      modifies this
      ensures errors == WithAdded(old(errors), code, message)
    {
      errors := errors[code := MessagesOf(errors, code) + [message]];
    }

    /** `$errors->remove($code)`. */
    method Remove(code: string)
      modifies this
      ensures errors == WithRemoved(old(errors), {code})
    {
      errors := errors - {code};
    }
  }
}
