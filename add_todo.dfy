/**
 * The add dialog: a text buffer bound to the input field, an "add" button
 * that forwards the buffer to the screen only when it is not blank, and a
 * "close" button. The two callbacks the dialog receives from the screen are
 * recorded, in the order they fire, in `fired`.
 */
module AddTodo {
  import opened JsString

  /** A call the dialog makes into the screen: `onAdd(text)` or `onClose()`. */
  datatype Callback = OnAdd(text: string) | OnClose

  /**
   * `text.trim()` is truthy. The guard rejects exactly the empty and the
   * whitespace-only buffers.
   */
  predicate Accepts(text: string)
    ensures Accepts(text) <==> exists i :: 0 <= i < |text| && !IsWhitespace(text[i])
  {
    TrimEmptyIff(text);
    Trim(text) != ""
  }

  /**
   * What the dialog guarantees the screen: every `onAdd` in the log carries a
   * non-blank text and is followed at once by `onClose`.
   */
  predicate WellFormed(fired: seq<Callback>) {
    forall k :: 0 <= k < |fired| && fired[k].OnAdd? ==>
      Accepts(fired[k].text) && k + 1 < |fired| && fired[k + 1] == OnClose
  }

  /** An accepted add with its close keeps the log well formed. */
  lemma AddStepWellFormed(fired: seq<Callback>, text: string)
    requires WellFormed(fired) && Accepts(text)
    ensures WellFormed(fired + [OnAdd(text), OnClose])
  {
    var f := fired + [OnAdd(text), OnClose];
    forall k | 0 <= k < |f| && f[k].OnAdd?
      ensures Accepts(f[k].text) && k + 1 < |f| && f[k + 1] == OnClose
    {
      if k < |fired| {
        assert f[k] == fired[k] && f[k + 1] == fired[k + 1];
      }
    }
  }

  /** A lone close keeps the log well formed. */
  lemma CloseStepWellFormed(fired: seq<Callback>)
    requires WellFormed(fired)
    ensures WellFormed(fired + [OnClose])
  {
    var f := fired + [OnClose];
    forall k | 0 <= k < |f| && f[k].OnAdd?
      ensures Accepts(f[k].text) && k + 1 < |f| && f[k + 1] == OnClose
    {
      assert f[k] == fired[k];
    }
  }

  class AddDialog {
    var text: string
    var fired: seq<Callback>

    predicate Valid()
      reads this
    {
      WellFormed(fired)
    }

    /** `useState('')`: the buffer starts empty and nothing has fired. */
    constructor ()
      ensures Valid() && text == "" && fired == []
    {
      text := "";
      fired := [];
    }

    /** `onChangeText={setText}`: the input field overwrites the buffer. */
    method ChangeText(value: string)
      requires Valid()
      modifies this
      ensures Valid() && text == value && fired == old(fired)
    {
      text := value;
    }

    /**
     * `handleAdd`: a blank buffer changes nothing and fires nothing; any
     * other buffer is passed to `onAdd` untrimmed, then the buffer is
     * cleared and `onClose` fires once.
     */
    method HandleAdd()
      requires Valid()
      modifies this
      ensures Valid()
      ensures Accepts(old(text)) ==> text == "" && fired == old(fired) + [OnAdd(old(text)), OnClose]
      ensures !Accepts(old(text)) ==> text == old(text) && fired == old(fired)
    {
      ghost var before, buffer := fired, text;
      if Accepts(text) {
        AddStepWellFormed(fired, text);
        fired := fired + [OnAdd(text)];
        text := "";
        fired := fired + [OnClose];
        assert fired == before + [OnAdd(buffer), OnClose];
      }
    }

    /** The close button: only `onClose` fires; the buffer keeps its text. */
    method Close()
      requires Valid()
      modifies this
      ensures Valid() && text == old(text) && fired == old(fired) + [OnClose]
    {
      CloseStepWellFormed(fired);
      fired := fired + [OnClose];
    }
  }
}
