/** An open file that is read one character at a time. */
module Files {

  class TextFile {
    const content: string
    var position: nat

    ghost predicate Valid()
      reads this
    {
      position <= |content|
    }

    function Rest(): string
      requires Valid()
      reads this
    {
      content[position..]
    }

    constructor (content: string)
      ensures Valid() && this.content == content && position == 0
    {
      this.content := content;
      position := 0;
    }

    // read of one byte; r is 0 at the end of the file
    method Read() returns (r: nat, c: char)
      requires Valid()
      modifies this
      ensures Valid()
      ensures if old(position) < |content| then
                r == 1 && c == content[old(position)] && position == old(position) + 1
              else r == 0 && position == old(position)
    {
      if position < |content| {
        c := content[position];
        position := position + 1;
        return 1, c;
      }
      return 0, '\0';
    }

    method Rewind()
      modifies this
      ensures Valid() && position == 0
    {
      position := 0;
    }
  }
}
