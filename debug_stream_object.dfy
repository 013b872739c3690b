/**
 * The DebugStream object itself, whose methods update its text and layout
 * controls in place, and the scope guards that set one control and put it
 * back. Each method is proved to perform the Stream operation of the same
 * name, so everything proved about Render holds of what it writes.
 */
module QuickDebugStreamObject {
  import opened QuickDebugStream

  /**
   * The DebugStream object: the text written to its std::ostringstream base
   * and the public layout controls is_inline, indentation_space and depth.
   * Every method performs in place the operation of the same name on Stream.
   */
  class DebugStream {
    var out: string
    var isInline: bool
    var indentationSpace: u8
    var depth: u32

    /** The value this object holds. */
    function State(): Stream
      reads this
    {
      Stream(out, depth, isInline, indentationSpace)
    }

    /** DebugStream(): empty text, not inline, two spaces per level, depth 0. */
    constructor ()
      ensures State() == Initial
    {
      out := [];
      isInline := false;
      indentationSpace := 2;
      depth := 0;
    }

    /** Writing to the BaseStream; also the operator<< for fundamental types. */
    method PutRaw(text: string)
      modifies this
      ensures State() == old(State()).Raw(text)
    {
      out := out + text;
    }

    method TabSpace()
      modifies this
      ensures State() == old(State()).TabSpace()
    {
      PutRaw(Spaces(Pad(depth, indentationSpace)));
    }

    /** operator<<(char). */
    method PutChar(c: char)
      modifies this
      ensures State() == old(State()).PutChar(c)
    {
      PutRaw([c]);
      if c == '\n' {
        TabSpace();
      }
    }

    /** operator<<(const std::string&), and operator<<(const char*) up to its terminating NUL. */
    method PutText(text: string)
      modifies this
      ensures State() == old(State()).PutText(text)
    {
      var k := 0;
      while k < |text|
        invariant 0 <= k <= |text|
        invariant State() == old(State()).PutText(text[..k])
      {
        assert text[..k + 1][..k] == text[..k];
        PutChar(text[k]);
        k := k + 1;
      }
      assert text[..k] == text;
    }

    method BranchStart(c: char)
      modifies this
      ensures State() == old(State()).BranchStart(c)
    {
      PutChar(c);
      if !isInline {
        PutRaw("\n");
        depth := (depth + 1) % U32;
        TabSpace();
      }
    }

    /** BranchEnd(c); `threw` reports the runtime_error, after which the stream is left as it was at the throw. */
    method BranchEnd(c: char) returns (threw: bool)
      modifies this
      ensures threw == old(State()).BranchEnd(c).Threw?
      ensures State() == old(State()).BranchEnd(c).st
    {
      threw := false;
      if !isInline {
        PutRaw("\n");
        if depth == 0 {
          threw := true;
          return;
        }
        depth := depth - 1;
        TabSpace();
      }
      PutChar(c);
    }

    method SetInline(value: bool)
      modifies this
      ensures State() == old(State()).(inline := value)
    {
      isInline := value;
    }

    method SetIndentation(value: u8)
      modifies this
      ensures State() == old(State()).(indent := value)
    {
      indentationSpace := value;
    }

    /** Sets is_inline until the returned guard is restored. */
    method SetInlineForThisScope(value: bool) returns (guard: ScopedInline)
      modifies this
      ensures fresh(guard) && guard.stream == this
      ensures guard.newValue == value && guard.originalValue == old(isInline)
      ensures State() == old(State()).(inline := value)
    {
      guard := new ScopedInline(value, this);
    }

    /** Sets indentation_space until the returned guard is restored. */
    method SetIndentationForThisScope(value: u8) returns (guard: ScopedIndentation)
      modifies this
      ensures fresh(guard) && guard.stream == this
      ensures guard.newValue == value && guard.originalValue == old(indentationSpace)
      ensures State() == old(State()).(indent := value)
    {
      guard := new ScopedIndentation(value, this);
    }

    /**
     * The free operator<< overloads: writes v, and reports whether a
     * BranchEnd threw; the text and layout are then what Render gives.
     */
    method Write(v: Value, scope: KeyScope) returns (threw: bool)
      modifies this
      ensures threw == Render(old(State()), v, scope).Threw?
      ensures State() == Render(old(State()), v, scope).st
      decreases v, 3
    {
      match v
      case Fundamental(text) =>
        PutRaw(text);
        threw := false;
      case Character(c) =>
        PutChar(c);
        threw := false;
      case Text(chars) =>
        PutText(chars);
        threw := false;
      case Enum(number) =>
        PutText("ENUM-");
        PutRaw(DecimalText(Int32(number)));
        threw := false;
      case Sequence(_) =>
        threw := WriteSequence(v, scope);
      case Mapping(_) =>
        threw := WriteMapping(v, scope);
      case Pair(first, second) =>
        BranchStart('(');
        threw := Write(first, scope);
        if threw {
          return;
        }
        PutText(", ");
        threw := Write(second, scope);
        if threw {
          return;
        }
        threw := BranchEnd(')');
    }

    /**
     * operator<< for std::vector, std::list, std::set and std::unordered_set.
     * The loop's is_first_item flag is `k == 0`.
     */
    method WriteSequence(v: Value, scope: KeyScope) returns (threw: bool)
      requires v.Sequence?
      modifies this
      ensures threw == Render(old(State()), v, scope).Threw?
      ensures State() == Render(old(State()), v, scope).st
      decreases v, 1
    {
      var items := v.items;
      if |items| == 0 {
        PutText("[]");
        return false;
      }
      BranchStart('[');
      ghost var s1 := State();
      var k := 0;
      while k < |items|
        invariant 0 <= k <= |items|
        invariant RenderItems(s1, items[..k], scope, v) == Ok(State())
      {
        ItemsPrefixStep(s1, items, k, scope, v);
        threw := WriteItem(items[k], k == 0, scope, v);
        if threw {
          ItemsThrowAbsorbs(s1, items, k + 1, scope, v);
          return;
        }
        k := k + 1;
      }
      assert items[..k] == items;
      threw := BranchEnd(']');
    }

    /** One pass of the loop over a sequence container: "" (first) or ", ", then the item. */
    method WriteItem(item: Value, isFirstItem: bool, scope: KeyScope, ghost parent: Value) returns (threw: bool)
      requires item < parent
      modifies this
      ensures threw == RenderItem(old(State()), item, isFirstItem, scope, parent).Threw?
      ensures State() == RenderItem(old(State()), item, isFirstItem, scope, parent).st
      decreases parent, 0
    {
      PutText(if isFirstItem then "" else ", ");
      threw := Write(item, scope);
    }

    /** operator<< for std::map and std::unordered_map. */
    method WriteMapping(v: Value, scope: KeyScope) returns (threw: bool)
      requires v.Mapping?
      modifies this
      ensures threw == Render(old(State()), v, scope).Threw?
      ensures State() == Render(old(State()), v, scope).st
      decreases v, 2
    {
      if |v.entries| == 0 {
        PutText("{}");
        return false;
      }
      BranchStart('{');
      threw := WriteEntries(v.entries, scope, v);
      if !threw {
        threw := BranchEnd('}');
      }
    }

    /**
     * The loop over a map's entries between its brackets, up to the first
     * entry that throws. The loop's is_first_item flag is `k == 0`.
     */
    method WriteEntries(entries: seq<Entry>, scope: KeyScope, ghost parent: Value) returns (threw: bool)
      requires forall i | 0 <= i < |entries| :: entries[i].key < parent && entries[i].value < parent
      modifies this
      ensures threw == RenderEntries(old(State()), entries, scope, parent).Threw?
      ensures State() == RenderEntries(old(State()), entries, scope, parent).st
      decreases parent, 1
    {
      ghost var s1 := State();
      threw := false;
      var k := 0;
      while k < |entries|
        invariant 0 <= k <= |entries|
        invariant RenderEntries(s1, entries[..k], scope, parent) == Ok(State())
      {
        EntriesPrefixStep(s1, entries, k, scope, parent, State());
        threw := WriteEntry(entries[k], k == 0, scope, parent);
        if threw {
          EntriesThrowAbsorbs(s1, entries, k + 1, scope, parent);
          return;
        }
        k := k + 1;
      }
      assert entries[..k] == entries;
    }

    /** One pass of the loop over a map: separator, key (is_inline true), ": ", value. */
    method WriteEntry(e: Entry, isFirstItem: bool, scope: KeyScope, ghost parent: Value) returns (threw: bool)
      requires e.key < parent && e.value < parent
      modifies this
      ensures threw == RenderEntry(old(State()), e, isFirstItem, scope, parent).Threw?
      ensures State() == RenderEntry(old(State()), e, isFirstItem, scope, parent).st
      decreases parent, 0
    {
      if !isFirstItem {
        PutText(",");
        if !isInline {
          PutText("\n");
        }
      }
      if scope == Scoped {
        var guard := SetInlineForThisScope(true);
        threw := Write(e.key, scope);
        guard.Restore();
      } else {
        isInline := true;
        threw := Write(e.key, scope);
        if !threw {
          isInline := false;
        }
      }
      if threw {
        return;
      }
      PutText(": ");
      threw := Write(e.value, scope);
    }
  }

  /**
   * ScopedInlineStruct: sets is_inline on construction and puts back the
   * original value when restored (its destructor).
   */
  class ScopedInline {
    const stream: DebugStream
    const newValue: bool
    const originalValue: bool

    constructor (newValue: bool, stream: DebugStream)
      modifies stream
      ensures this.stream == stream && this.newValue == newValue
      ensures originalValue == old(stream.isInline)
      ensures stream.State() == old(stream.State()).(inline := newValue)
    {
      this.stream := stream;
      this.newValue := newValue;
      this.originalValue := stream.isInline;
      new;
      stream.isInline := newValue;
    }

    method Restore()
      modifies stream
      ensures stream.State() == old(stream.State()).(inline := originalValue)
    {
      stream.isInline := originalValue;
    }
  }

  /**
   * ScopedIndentationStruct: sets indentation_space on construction and puts
   * back the original value when restored (its destructor).
   */
  class ScopedIndentation {
    const stream: DebugStream
    const newValue: u8
    const originalValue: u8

    constructor (newValue: u8, stream: DebugStream)
      modifies stream
      ensures this.stream == stream && this.newValue == newValue
      ensures originalValue == old(stream.indentationSpace)
      ensures stream.State() == old(stream.State()).(indent := newValue)
    {
      this.stream := stream;
      this.newValue := newValue;
      this.originalValue := stream.indentationSpace;
      new;
      stream.indentationSpace := newValue;
    }

    method Restore()
      modifies stream
      ensures stream.State() == old(stream.State()).(indent := originalValue)
    {
      stream.indentationSpace := originalValue;
    }
  }
}
