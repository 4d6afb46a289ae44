/**
 * The list of e-mail fields of ShareDashboardModal.tsx. `emails` is the
 * component's state; each handler replaces it, as the React setter does.
 * Sharing itself (`onShare`) is returned to the caller.
 */
module Share {
  import opened Values
  import opened Seqs

  /** `email.trim() && email.includes('@')`. */
  predicate IsValidEmail(e: string)
  {
    Trim(e) != [] && '@' in e
  }

  /** `emails.filter(email => email.trim() && email.includes('@'))`. */
  function ValidEmails(emails: seq<string>): (r: seq<string>)
    ensures |r| <= |emails|
    ensures forall i :: 0 <= i < |r| ==> r[i] in emails && '@' in r[i] && Trim(r[i]) != []
  {
    Filter(emails, IsValidEmail)
  }

  /** An address is valid exactly when it holds an '@'. */
  lemma ValidIffAt(e: string)
    ensures IsValidEmail(e) <==> '@' in e
  {
    TrimNonEmptyIff(e);
    if '@' in e {
      var i :| 0 <= i < |e| && e[i] == '@';
      assert !IsWhitespace(e[i]);
    }
  }

  /** The valid addresses are, in order, exactly the fields holding an '@'. */
  lemma ValidEmailsSpec(emails: seq<string>)
    ensures Subseq(ValidEmails(emails), emails)
    ensures forall e :: e in ValidEmails(emails) <==> e in emails && '@' in e
    ensures forall e :: multiset(ValidEmails(emails))[e] == if '@' in e then multiset(emails)[e] else 0
  {
    FilterIsSubseq(emails, IsValidEmail);
    FilterCounts(emails, IsValidEmail);
    forall e ensures IsValidEmail(e) <==> '@' in e {
      ValidIffAt(e);
    }
    forall e ensures e in ValidEmails(emails) <==> e in emails && '@' in e {
      FilterMembership(emails, IsValidEmail, e);
      ValidIffAt(e);
    }
  }

  /** `emails.filter((_, i) => i !== index)`. */
  function WithoutIndex(emails: seq<string>, index: int): (r: seq<string>)
    ensures 0 <= index < |emails| ==> r == emails[..index] + emails[index + 1..]
    ensures !(0 <= index < |emails|) ==> r == emails
  {
    if emails == [] then []
    else if index == 0 then emails[1..]
    else [emails[0]] + WithoutIndex(emails[1..], index - 1)
  }

  class EmailInvites {
    var emails: seq<string>

    /** `useState([''])`. */
    constructor ()
      ensures emails == [""]
    {
      emails := [""];
    }

    /** The remove control is offered only while more than one field exists. */
    predicate CanRemove()
      reads this
    {
      |emails| > 1
    }

    /** `handleAddEmail`: one more empty field at the end. */
    method Add()
      modifies this
      ensures emails == old(emails) + [""]
    {
      emails := emails + [""];
    }

    /** `handleRemoveEmail`: drops exactly the field at `index`. */
    method Remove(index: int)
      modifies this
      ensures emails == WithoutIndex(old(emails), index)
      ensures old(CanRemove()) && 0 <= index < |old(emails)| ==> |emails| >= 1
    {
      emails := WithoutIndex(emails, index);
    }

    /** `handleEmailChange`: copies the list and writes one index. */
    method Change(index: nat, value: string)
      requires index < |emails|
      modifies this
      ensures emails == old(emails)[index := value]
    {
      var updated := emails;
      updated := updated[index := value];
      emails := updated;
    }

    /** `handleSubmit`: shares the valid addresses and resets the list when
        there is at least one; otherwise nothing happens. */
    method Submit() returns (shared: Option<seq<string>>)
      modifies this
      ensures shared.Some? <==> ValidEmails(old(emails)) != []
      ensures shared.Some? ==> shared.value == ValidEmails(old(emails)) && emails == [""]
      ensures shared.None? ==> emails == old(emails)
    {
      var valid := ValidEmails(emails);
      if |valid| > 0 {
        shared := Some(valid);
        emails := [""];
      } else {
        shared := None;
      }
    }
  }
}
