/**
 * The newsletter form of the site footer: the e-mail validator (the regular
 * expression ^[^\s@]+@[^\s@]+\.[^\s@]+$) and the submit handler, which adds a
 * valid, not yet present address to the stored list of subscribers.
 */
module Footer {

  /**
   * JavaScript's `\s` class (WhiteSpace and LineTerminator): tab, line feed,
   * vertical tab, form feed, carriage return, space, no-break space, the
   * Unicode space separators, line and paragraph separators and the byte
   * order mark. `String.prototype.trim` strips exactly these characters.
   */
  predicate IsWhitespace(c: char)
  {
    || c == '\t' || c == '\n' || c == '\U{000B}' || c == '\U{000C}' || c == '\r'
    || c == ' ' || c == '\U{00A0}' || c == '\U{1680}'
    || ('\U{2000}' <= c <= '\U{200A}')
    || c == '\U{2028}' || c == '\U{2029}' || c == '\U{202F}' || c == '\U{205F}'
    || c == '\U{3000}' || c == '\U{FEFF}'
  }

  predicate NoWhitespace(s: string)
  {
    forall k | 0 <= k < |s| :: !IsWhitespace(s[k])
  }

  /** `!s.trim()`: the string is empty or made of whitespace only. */
  predicate IsBlank(s: string)
  {
    forall k | 0 <= k < |s| :: IsWhitespace(s[k])
  }

  /** `[^\s@]+`: a non-empty run of characters that are neither whitespace nor '@'. */
  predicate IsAddressRun(s: string)
  {
    |s| > 0 && forall k | 0 <= k < |s| :: !IsWhitespace(s[k]) && s[k] != '@'
  }

  /** The whole string splits as run '@' run '.' run, with the '@' at `at` and the '.' at `dot`. */
  predicate SplitsAt(s: string, at: int, dot: int)
    requires 0 <= at < dot < |s|
  {
    && s[at] == '@' && s[dot] == '.'
    && IsAddressRun(s[..at]) && IsAddressRun(s[at + 1..dot]) && IsAddressRun(s[dot + 1..])
  }

  /** The language of the regular expression ^[^\s@]+@[^\s@]+\.[^\s@]+$. */
  ghost predicate MatchesEmailPattern(s: string)
  {
    exists at, dot | 0 <= at < dot < |s| :: SplitsAt(s, at, dot)
  }

  /** The position of the first `c` in `s`, or |s| when there is none. */
  function IndexOf(s: string, c: char): (i: nat)
    ensures i <= |s|
    ensures i < |s| ==> s[i] == c
    ensures forall k | 0 <= k < i :: s[k] != c
    decreases |s|
  {
    if s == [] then 0
    else if s[0] == c then 0
    else 1 + IndexOf(s[1..], c)
  }

  /**
   * validateEmail, decided in one pass of checks: no whitespace, a first '@'
   * that is not the first character and has no other '@' after it, and a '.'
   * after the '@' with at least one character on each side of it.
   */
  function ValidateEmail(s: string): (ok: bool)
  {
    var at := IndexOf(s, '@');
    && NoWhitespace(s)
    && 0 < at < |s|
    && (forall k | at < k < |s| :: s[k] != '@')
    && (exists dot | at + 1 < dot < |s| - 1 :: s[dot] == '.')
  }

  /** Every string the check accepts matches the regular expression. */
  lemma ValidateEmailSound(s: string)
    requires ValidateEmail(s)
    ensures MatchesEmailPattern(s)
  {
    var at := IndexOf(s, '@');
    var dot :| at + 1 < dot < |s| - 1 && s[dot] == '.';
    assert SplitsAt(s, at, dot);
  }

  /** Every string the regular expression matches is accepted by the check. */
  lemma ValidateEmailComplete(s: string, at: int, dot: int)
    requires 0 <= at < dot < |s| && SplitsAt(s, at, dot)
    ensures ValidateEmail(s)
  {
    assert forall k | 0 <= k < at :: s[k] == s[..at][k];
    assert forall k | at < k < dot :: s[k] == s[at + 1..dot][k - at - 1];
    assert forall k | dot < k < |s| :: s[k] == s[dot + 1..][k - dot - 1];
    assert IndexOf(s, '@') == at;
  }

  /** The check above accepts exactly the strings the regular expression matches. */
  lemma ValidateEmailIsPattern(s: string)
    ensures ValidateEmail(s) <==> MatchesEmailPattern(s)
  {
    if ValidateEmail(s) {
      ValidateEmailSound(s);
    }
    if MatchesEmailPattern(s) {
      var at, dot :| 0 <= at < dot < |s| && SplitsAt(s, at, dot);
      ValidateEmailComplete(s, at, dot);
    }
  }

  /** Every accepted address has no whitespace and exactly one '@'. */
  lemma ValidEmailHasOneAt(s: string)
    requires ValidateEmail(s)
    ensures NoWhitespace(s) && multiset(s)['@'] == 1
  {
    var at := IndexOf(s, '@');
    assert s == s[..at] + [s[at]] + s[at + 1..];
    assert '@' !in s[..at];
    assert '@' !in s[at + 1..];
    calc {
      multiset(s)['@'];
      multiset(s[..at])['@'] + multiset([s[at]])['@'] + multiset(s[at + 1..])['@'];
      1;
    }
  }

  /** An empty or whitespace-only input is never a valid address. */
  lemma BlankIsInvalid(s: string)
    requires IsBlank(s)
    ensures !ValidateEmail(s)
  {
  }

  /** What the handler shows the user afterwards (its toasts). */
  datatype SubmitOutcome = InvalidEmail | AlreadySubscribed | Subscribed

  /**
   * The footer's newsletter state: the text field `email`, the
   * `isSubmitting` flag, and the `newsletterSubscribers` list kept in local
   * storage, held here as a field.
   */
  class NewsletterForm {
    var email: string
    var isSubmitting: bool
    var subscribers: seq<string>

    /** Every stored address is one the validator accepts. */
    ghost predicate AllValid()
      reads this
    {
      forall k | 0 <= k < |subscribers| :: ValidateEmail(subscribers[k])
    }

    /** No address is stored twice. */
    ghost predicate NoDuplicates()
      reads this
    {
      forall i, j | 0 <= i < j < |subscribers| :: subscribers[i] != subscribers[j]
    }

    /** A freshly mounted form: empty field, not submitting, the list as stored. */
    constructor (stored: seq<string>)
      ensures email == "" && !isSubmitting && subscribers == stored
    {
      email := "";
      isSubmitting := false;
      subscribers := stored;
    }

    /** The input's change handler. */
    method SetEmail(value: string)
      modifies this`email
      ensures email == value
    {
      email := value;
    }

    /**
     * handleNewsletterSubmit. An empty, blank or malformed address returns
     * early: nothing is written and `isSubmitting` is left alone. An address
     * already in the list leaves the list as it was. Otherwise the address is
     * appended and the field cleared. Either way past validation, the handler
     * ends with `isSubmitting` false.
     */
    method HandleNewsletterSubmit() returns (outcome: SubmitOutcome)
      modifies this
      ensures outcome == InvalidEmail <==> !ValidateEmail(old(email))
      ensures outcome == AlreadySubscribed <==> ValidateEmail(old(email)) && old(email) in old(subscribers)
      ensures outcome == Subscribed <==> ValidateEmail(old(email)) && old(email) !in old(subscribers)
      ensures outcome == InvalidEmail ==>
        subscribers == old(subscribers) && email == old(email) && isSubmitting == old(isSubmitting)
      ensures outcome == AlreadySubscribed ==>
        subscribers == old(subscribers) && email == old(email) && !isSubmitting
      ensures outcome == Subscribed ==>
        subscribers == old(subscribers) + [old(email)] && email == "" && !isSubmitting
      ensures old(AllValid()) ==> AllValid()
      ensures old(NoDuplicates()) ==> NoDuplicates()
    {
      if IsBlank(email) {
        BlankIsInvalid(email);
        return InvalidEmail;
      }
      if !ValidateEmail(email) {
        return InvalidEmail;
      }
      isSubmitting := true;
      if email in subscribers {
        outcome := AlreadySubscribed;
      } else {
        subscribers := subscribers + [email];
        outcome := Subscribed;
        email := "";
      }
      isSubmitting := false;
    }
  }
}
