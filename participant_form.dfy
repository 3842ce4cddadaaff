/**
 * The add-participant form: a typed name is refused when it is blank after
 * trimming or when a participant of the same name (ignoring case) exists;
 * otherwise a participant with the trimmed name and a fresh id is handed to
 * the bill and the field is cleared.
 *
 * The program compares the untrimmed input with the existing names, so a
 * name padded with spaces slips past the duplicate check and is then stored
 * trimmed. Both the check as written and the corrected check, which compares
 * the trimmed name, are kept; the form's field follows the code as written.
 */
module ParticipantForm {
  import opened BillTypes
  import opened Text

  datatype NameRejection = BlankName | DuplicateName

  datatype NameOutcome = Accepted(participant: Participant) | Rejected(reason: NameRejection)

  /** `participants.some(p => p.name.toLowerCase() === name.toLowerCase())`. */
  predicate NameTaken(participants: seq<Participant>, name: string)
  {
    exists p :: p in participants && ToLower(p.name) == ToLower(name)
  }

  /** No two participants have names that are equal ignoring case. */
  predicate NamesUnique(participants: seq<Participant>)
  {
    forall i, j :: 0 <= i < j < |participants| ==> ToLower(participants[i].name) != ToLower(participants[j].name)
  }

  /** The outcome of submitting `name` with the duplicate check as written, on the untrimmed input. */
  function NameSubmissionAsWritten(participants: seq<Participant>, name: string, newId: Id): (r: NameOutcome)
    ensures r.Accepted? ==> r.participant.id == newId && r.participant.name == Trim(name) && Trim(name) != []
    ensures r == Rejected(BlankName) <==> AllWhitespace(name)
    ensures r.Accepted? <==> !AllWhitespace(name) && !NameTaken(participants, name)
  {
    TrimBlank(name);
    if Trim(name) == [] then Rejected(BlankName)
    else if NameTaken(participants, name) then Rejected(DuplicateName)
    else Accepted(Participant(newId, Trim(name)))
  }

  /** The outcome of submitting `name` with the corrected duplicate check, on the trimmed name that is stored. */
  function NameSubmission(participants: seq<Participant>, name: string, newId: Id): (r: NameOutcome)
    ensures r.Accepted? ==> r.participant.id == newId && r.participant.name == Trim(name) && Trim(name) != []
    ensures r == Rejected(BlankName) <==> AllWhitespace(name)
    ensures r.Accepted? <==> !AllWhitespace(name) && !NameTaken(participants, Trim(name))
  {
    TrimBlank(name);
    if Trim(name) == [] then Rejected(BlankName)
    else if NameTaken(participants, Trim(name)) then Rejected(DuplicateName)
    else Accepted(Participant(newId, Trim(name)))
  }

  /** An accepted participant keeps the names unique, so the list stays free of case-insensitive duplicates. */
  lemma AcceptedNameKeepsNamesUnique(participants: seq<Participant>, name: string, newId: Id)
    requires NamesUnique(participants)
    requires NameSubmission(participants, name, newId).Accepted?
    ensures NamesUnique(participants + [NameSubmission(participants, name, newId).participant])
  {
    var q := NameSubmission(participants, name, newId).participant;
    var ps := participants + [q];
    forall i, j | 0 <= i < j < |ps| ensures ToLower(ps[i].name) != ToLower(ps[j].name) {
      if j == |participants| {
        assert ps[i] in participants;
      }
    }
  }

  /** An accepted name is stored trimmed: it has no white space at either end and is left alone by a second trim. */
  lemma AcceptedNameIsTrimmed(participants: seq<Participant>, name: string, newId: Id)
    requires NameSubmission(participants, name, newId).Accepted?
    ensures var stored := NameSubmission(participants, name, newId).participant.name;
      stored != [] && !IsWhitespace(stored[0]) && !IsWhitespace(stored[|stored| - 1]) && Trim(stored) == stored
  {
    TrimIdempotent(name);
  }

  /** `" alice"` trims to `"alice"`. */
  lemma PaddedAliceTrims()
    ensures Trim(" alice") == "alice"
  {
    assert " alice"[1..] == "alice";
    TrimStartNoop("alice");
    TrimEndNoop("alice");
  }

  /** `"Alice"` and `"alice"` lower-case alike, `" alice"` differently. */
  lemma AliceLowerCases()
    ensures ToLower("Alice") == "alice" == ToLower("alice")
    ensures ToLower(" alice") != ToLower("Alice")
  {
    var upper, lower := ToLower("Alice"), ToLower("alice");
    forall i | 0 <= i < 5 ensures upper[i] == "alice"[i] && lower[i] == "alice"[i] {
    }
    assert ToLower(" alice")[0] == ' ' != 'a';
  }

  /**
   * As written, " alice" is accepted next to "Alice" and stored as "alice",
   * a case-insensitive duplicate.
   */
  lemma AsWrittenAcceptsPaddedDuplicate()
    ensures NameSubmissionAsWritten([Participant("p1", "Alice")], " alice", "p2") == Accepted(Participant("p2", "alice"))
    ensures NamesUnique([Participant("p1", "Alice")])
    ensures !NamesUnique([Participant("p1", "Alice"), Participant("p2", "alice")])
  {
    PaddedAliceTrims();
    AliceLowerCases();
    AsWrittenMissesPadding();
    var ps := [Participant("p1", "Alice"), Participant("p2", "alice")];
    assert ToLower(ps[0].name) == ToLower(ps[1].name);
  }

  lemma AsWrittenMissesPadding()
    ensures NameSubmissionAsWritten([Participant("p1", "Alice")], " alice", "p2").Accepted?
  {
    AliceLowerCases();
    assert !NameTaken([Participant("p1", "Alice")], " alice");
    assert !IsWhitespace(" alice"[1]);
  }

  /** The corrected check refuses the same name. */
  lemma CorrectedRejectsPaddedDuplicate()
    ensures NameSubmission([Participant("p1", "Alice")], " alice", "p2") == Rejected(DuplicateName)
  {
    var alice := Participant("p1", "Alice");
    PaddedAliceTrims();
    AliceLowerCases();
    var participants := [alice];
    assert alice in participants && ToLower(alice.name) == ToLower(Trim(" alice"));
    assert NameTaken(participants, Trim(" alice"));
    assert !IsWhitespace(" alice"[1]);
    var r := NameSubmission(participants, " alice", "p2");
    assert !r.Accepted? && r != Rejected(BlankName);
  }

  /** The form's state: the text typed into the name field. */
  class NameField {
    var name: string

    constructor()
      ensures name == ""
    {
      name := "";
    }

    /** Typing into the field. */
    method SetName(typed: string)
      modifies this
      ensures name == typed
    {
      name := typed;
    }

    /**
     * handleSubmit: on acceptance the new participant is passed on and the
     * field cleared; on rejection nothing is passed on and the typed name is
     * kept. The duplicate check is the one in the code as written, on the
     * untrimmed input.
     */
    method HandleSubmit(participants: seq<Participant>, newId: Id) returns (added: Option<Participant>)
      modifies this
      ensures NameSubmissionAsWritten(participants, old(name), newId).Accepted? ==>
        added == Some(NameSubmissionAsWritten(participants, old(name), newId).participant) && name == ""
      ensures NameSubmissionAsWritten(participants, old(name), newId).Rejected? ==> added == None && name == old(name)
    {
      TrimBlank(name);
      if Trim(name) == [] {
        return None;
      }
      if exists p :: p in participants && ToLower(p.name) == ToLower(name) {
        return None;
      }
      added := Some(Participant(newId, Trim(name)));
      name := "";
    }
  }
}
