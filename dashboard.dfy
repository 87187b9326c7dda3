/**
 * The owner's dashboard, stateful part: the confirmation modal, the list of
 * ids whose reply e-mail was sent, and the editing of a suggested reply.
 *
 * Each handler that awaits a request is split at the await: the first half
 * runs when the owner clicks and returns what the second half captured (the
 * modal as it was); the second half receives whether the request succeeded.
 */
module Dashboard {
  import opened Common
  import opened DashboardData

  datatype ModalKind = Delete | Email | Success

  /** The open modal: what it confirms, for which feedback, and the e-mail's recipient. */
  datatype Modal = Modal(kind: ModalKind, itemId: string, emailTo: Option<string>)

  class DashboardState {
    var feedbacks: seq<Feedback>
    var editingId: Option<string>
    var editText: string
    var sendingId: Option<string>
    var modal: Option<Modal>
    var sentEmails: seq<string>

    /** The page opens with no data loaded and the sent ids restored from the browser. */
    constructor (restoredSent: seq<string>)
      ensures feedbacks == [] && editingId == None && editText == ""
      ensures sendingId == None && modal == None && sentEmails == restoredSent
    {
      feedbacks := [];
      editingId := None;
      editText := "";
      sendingId := None;
      modal := None;
      sentEmails := restoredSent;
    }

    /** `sentEmails.includes(id)`. */
    predicate IsSent(id: string)
      reads this
      ensures IsSent(id) <==> exists i :: 0 <= i < |sentEmails| && sentEmails[i] == id
    {
      id in sentEmails
    }

    /** The edit button of a card is rendered only while its reply is unsent. */
    predicate EditButtonShown(id: string)
      reads this
      ensures EditButtonShown(id) <==> forall i :: 0 <= i < |sentEmails| ==> sentEmails[i] != id
    {
      !IsSent(id)
    }

    /** The send button of a card is disabled while its e-mail is in flight or once it was sent. */
    predicate SendButtonDisabled(id: string)
      reads this
      ensures IsSent(id) ==> SendButtonDisabled(id)
      ensures !IsSent(id) ==> (SendButtonDisabled(id) <==> sendingId == Some(id))
    {
      sendingId == Some(id) || IsSent(id)
    }

    /** The modal's confirm button is disabled while any e-mail is in flight. */
    predicate ConfirmButtonDisabled()
      reads this
      ensures ConfirmButtonDisabled() <==> sendingId != None
    {
      sendingId.Some?
    }

    method RequestDelete(id: string)
      modifies this`modal
      ensures modal == Some(Modal(Delete, id, None))
    {
      modal := Some(Modal(Delete, id, None));
    }

    method RequestEmail(item: Feedback)
      modifies this`modal
      ensures modal == Some(Modal(Email, item.id, Some(item.email)))
    {
      modal := Some(Modal(Email, item.id, Some(item.email)));
    }

    method CloseModal()
      modifies this`modal
      ensures modal == None
    {
      modal := None;
    }

    /**
     * Confirming, before the await: nothing happens without a modal; for an
     * e-mail the item is marked as being sent. The handler's closure keeps
     * the modal and the list as they are at the click.
     */
    method BeginConfirm() returns (pending: Option<Modal>, listAtClick: seq<Feedback>)
      modifies this`sendingId
      ensures pending == modal && listAtClick == feedbacks
      ensures pending.Some? && pending.value.kind == Email ==>
        sendingId == Some(pending.value.itemId) && ConfirmButtonDisabled() && SendButtonDisabled(pending.value.itemId)
      ensures !(pending.Some? && pending.value.kind == Email) ==> sendingId == old(sendingId)
    {
      pending := modal;
      listAtClick := feedbacks;
      if modal.Some? && modal.value.kind == Email {
        sendingId := Some(modal.value.itemId);
      }
    }

    /**
     * Confirming, after the await of the request for `pending`; `ok` is
     * whether it succeeded. A delete keeps the items of the list captured at
     * the click whose id differs, and closes the modal; a sent e-mail records the id and turns the modal
     * into the success notice; a failed e-mail closes the modal; a failed
     * delete changes nothing. The sent ids only ever grow.
     */
    method FinishConfirm(pending: Modal, listAtClick: seq<Feedback>, ok: bool)
      modifies this
      ensures editingId == old(editingId) && editText == old(editText)
      ensures pending.kind == Delete ==>
        sendingId == old(sendingId) && sentEmails == old(sentEmails) &&
        (ok ==> feedbacks == RemoveById(listAtClick, pending.itemId) && modal == None) &&
        (!ok ==> feedbacks == old(feedbacks) && modal == old(modal))
      ensures pending.kind == Email ==>
        sendingId == None && feedbacks == old(feedbacks) &&
        (ok ==> sentEmails == old(sentEmails) + [pending.itemId] && modal == Some(pending.(kind := Success))) &&
        (!ok ==> sentEmails == old(sentEmails) && modal == None)
      ensures pending.kind == Success ==>
        feedbacks == old(feedbacks) && sendingId == old(sendingId) &&
        sentEmails == old(sentEmails) && modal == old(modal)
      ensures pending.kind == Email && ok ==>
        IsSent(pending.itemId) && !EditButtonShown(pending.itemId) && SendButtonDisabled(pending.itemId)
      ensures old(sentEmails) <= sentEmails
    {
      match pending.kind
      case Delete =>
        if ok {
          feedbacks := RemoveById(listAtClick, pending.itemId);
          modal := None;
        }
      case Email =>
        if ok {
          sentEmails := sentEmails + [pending.itemId];
          modal := Some(pending.(kind := Success));
        } else {
          modal := None;
        }
        sendingId := None;
      case Success =>
    }

    /** Opening the editor on a card, pre-filled with its current suggestion. */
    method StartEditing(item: Feedback)
      modifies this`editingId, this`editText
      ensures editingId == Some(item.id)
      ensures editText == item.suggestedResponse.GetOr("")
    {
      editingId := Some(item.id);
      editText := item.suggestedResponse.GetOr("");
    }

    /** Closing the editor without saving. */
    method CancelEditing()
      modifies this`editingId
      ensures editingId == None
    {
      editingId := None;
    }

    /** Typing in the editor. */
    method SetEditText(text: string)
      modifies this`editText
      ensures editText == text
    {
      editText := text;
    }

    /**
     * Saving, before the await: the request sends the editor's text, and the
     * handler's closure keeps that text and the list as they are at the click.
     */
    method BeginSaveEdit() returns (sentText: string, listAtClick: seq<Feedback>)
      ensures sentText == editText && listAtClick == feedbacks
    {
      sentText := editText;
      listAtClick := feedbacks;
    }

    /**
     * Saving, after the await of the update request for `id`; `ok` is whether
     * it succeeded. On success the text sent goes into the matching items of
     * the list captured at the click, and the editor closes; on failure
     * nothing changes.
     */
    method SaveEdit(id: string, sentText: string, listAtClick: seq<Feedback>, ok: bool)
      modifies this`feedbacks, this`editingId
      ensures ok ==> feedbacks == ApplyEdit(listAtClick, id, sentText) && editingId == None
      ensures ok ==> |feedbacks| == |listAtClick|
      ensures !ok ==> feedbacks == old(feedbacks) && editingId == old(editingId)
    {
      if ok {
        feedbacks := ApplyEdit(listAtClick, id, sentText);
        editingId := None;
      }
    }
  }
}
