/** The text screen of drivers/vga/vga.c in place, with kstd_write of src/stdio.c. */
module Vga {
  import opened CTypes
  import opened Screen

  class Console {
    const memory: array<uint8>
    var ptr: int

    ghost predicate Valid()
      reads this
    {
      memory.Length == APERTURE && ptr >= 0
    }

    ghost function View(): View
      reads this, memory
    {
      Screen.View(memory[..], ptr)
    }

    constructor ()
      ensures Valid() && fresh(memory) && ptr == 0
    {
      memory := new uint8[APERTURE];
      ptr := 0;
    }

    /** __kstd_vga_newline. */
    method Newline()
      requires Valid()
      modifies this
      ensures Valid() && View() == old(View()).(ptr := NextLine(old(ptr)))
      ensures ptr % (2 * COLS) == 0 && old(ptr) < ptr <= old(ptr) + 2 * COLS
    {
      ptr := NextLine(ptr);
    }

    /** __kstd_vga_tab. */
    method Tab()
      requires Valid()
      modifies this
      ensures Valid() && View() == old(View()).(ptr := old(ptr) + 4)
    {
      TabNeverWraps(ptr);
      ptr := TabStop(ptr);
    }

    /** __kstd_vga_putchar and __kstd_vga_clear call each other: a full page is cleared by writing
        blanks, which never finds the page full. */
    method PutChar(c: uint8, attr: uint8)
      requires Valid()
      modifies this, memory
      ensures Valid() && View() == Put(old(View()), c, attr)
      decreases if ptr >= SCREEN_SIZE then 2 else 0
    {
      if c == NUL {
        return;
      }
      if ptr >= SCREEN_SIZE {
        Clear();
      }
      if c == NEWLINE {
        Newline();
        return;
      }
      if c == TAB {
        TabNeverWraps(ptr);
        Tab();
        return;
      }
      memory[ptr] := c;
      memory[ptr + 1] := attr;
      ptr := ptr + 2;
    }

    method Clear()
      requires Valid()
      modifies this, memory
      ensures Valid() && View() == Cleared(old(View()))
      ensures ptr == 0 && Wiped(old(memory[..]), memory[..])
      decreases 1
    {
      ptr := 0;
      var viter := ptr;
      while viter < SCREEN_SIZE
        invariant Valid() && viter == ptr && ptr % 2 == 0 && 0 <= ptr <= SCREEN_SIZE
        invariant forall j :: 0 <= j < ptr ==> memory[j] == Blank(j)
        invariant forall j :: ptr <= j < APERTURE ==> memory[j] == old(memory[j])
        decreases SCREEN_SIZE - viter
      {
        PutChar(SPACE, ATTR_BLANK);
        viter := ptr;
      }
      ptr := 0;
      assert memory[..] == Cleared(old(View())).memory;
    }

    /** __kstd_vga_backspace, away from the top left corner. */
    method Backspace()
      requires Valid() && 2 <= ptr <= APERTURE
      modifies this, memory
      ensures Valid() && View() == Backspaced(old(View()))
    {
      ptr := ptr - 2;
      memory[ptr] := SPACE;
      memory[ptr + 1] := ATTR_BLANK;
    }

    /** kstd_write. */
    method Write(s: seq<uint8>)
      requires Valid()
      modifies this, memory
      ensures Valid() && View() == PutAll(old(View()), s, ATTR_TEXT)
    {
      for i := 0 to |s|
        invariant Valid() && View() == PutAll(old(View()), s[..i], ATTR_TEXT)
      {
        PutChar(s[i], ATTR_TEXT);
        assert s[..i + 1][..i] == s[..i];
      }
      assert s[..|s|] == s;
    }
  }
}
