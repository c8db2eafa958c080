/** CP_fileobject of python/http/cherrPy-wsgi.py: buffered reading from a
    socket, in the two forms the source chooses between when it is loaded. */
module FileObject {
  import opened PlainStream

  /** The receiving side of a connected socket: what the peer has still to
      deliver, up to end of file. */
  class Socket {
    var unread: string

    constructor (unread: string)
      ensures this.unread == unread
    {
      this.unread := unread;
    }

    /** Any non-empty piece of at most size bytes, or nothing at end of file. */
    method Recv(size: nat) returns (data: string)
      requires size > 0
      modifies this
      ensures old(unread) == data + unread && |data| <= size
      ensures data == "" <==> old(unread) == ""
    {
      if unread == "" {
        return "";
      }
      var n :| 1 <= n <= size && n <= |unread|;
      data := unread[..n];
      unread := unread[n..];
    }
  }

  /** Python's StringIO, as far as the file object uses it. */
  class StringIO {
    var value: string
    var pos: nat

    constructor ()
      ensures value == "" && pos == 0
    {
      value, pos := "", 0;
    }

    method SeekStart()
      modifies this`pos
      ensures pos == 0
    {
      pos := 0;
    }

    method SeekEnd()
      modifies this`pos
      ensures pos == |value|
    {
      pos := |value|;
    }

    /** read(): the rest from the current position. */
    method ReadRest() returns (data: string)
      requires pos <= |value|
      modifies this`pos
      ensures data == value[old(pos)..] && pos == |value|
    {
      data := value[pos..];
      pos := |value|;
    }

    method Read(size: nat) returns (data: string)
      requires pos <= |value|
      modifies this`pos
      ensures data == ReadOf(value[old(pos)..], size) && pos == old(pos) + |data|
    {
      data := ReadOf(value[pos..], size);
      pos := pos + |data|;
    }

    method Readline(size: int) returns (data: string)
      requires pos <= |value|
      modifies this`pos
      ensures IsReadline(value[old(pos)..], size, data) && pos == old(pos) + |data|
    {
      ReadlineSatisfies(value[pos..], size);
      data := ReadlineOf(value[pos..], size);
      pos := pos + |data|;
    }

    /** write at the end, which is where the file object always writes. */
    method Append(data: string)
      requires pos == |value|
      modifies this
      ensures value == old(value) + data && pos == |value|
    {
      value := value + data;
      pos := |value|;
    }
  }

  const DEFAULT_BUFSIZE := 8192

  class CPFileObject {
    const sock: Socket
    /** _fileobject_uses_str_type */
    const usesStr: bool
    /** _rbufsize: 1 for an unbuffered file object. */
    const rbufsize: nat
    var rbufStr: string
    var rbuf: StringIO
    var bytesRead: nat
    ghost const total: nat

    ghost function Repr(): set<object>
      reads this`rbuf
    {
      {this, sock, rbuf}
    }

    ghost function Buffer(): string
      reads this, rbuf
    {
      if usesStr then rbufStr else rbuf.value
    }

    /** Everything the application can still read: the buffer and the unread stream. */
    ghost function Pending(): string
      reads this, rbuf, sock
    {
      Buffer() + sock.unread
    }

    /** An unbuffered str file object never keeps anything in its buffer, and
        bytes_read counts every byte taken from the socket. */
    ghost predicate Valid()
      reads this, rbuf, sock
    {
      && rbufsize >= 1
      && (usesStr && rbufsize <= 1 ==> rbufStr == "")
      && bytesRead + |sock.unread| == total
    }

    /** Python's _fileobject: a negative size means the default, and 0 means 1. */
    constructor (sock: Socket, usesStr: bool, bufsize: int)
      ensures Valid() && this.sock == sock && this.usesStr == usesStr
      ensures Buffer() == "" && fresh(rbuf) && bytesRead == 0
    {
      this.sock := sock;
      this.usesStr := usesStr;
      rbufsize := if bufsize < 0 then DEFAULT_BUFSIZE else if bufsize == 0 then 1 else bufsize;
      rbufStr := "";
      rbuf := new StringIO();
      bytesRead := 0;
      total := |sock.unread|;
    }

    method Recv(size: nat) returns (data: string)
      requires Valid() && size > 0
      modifies this`bytesRead, sock
      ensures Valid() && old(sock.unread) == data + sock.unread && |data| <= size
      ensures data == "" <==> old(sock.unread) == ""
    {
      data := sock.Recv(size);
      bytesRead := bytesRead + |data|;
    }

    /** read, StringIO form */
    method ReadIO(size: int) returns (data: string)
      requires Valid() && !usesStr
      modifies this, sock, rbuf
      ensures Valid() && fresh(rbuf)
      ensures data == ReadOf(old(Pending()), size)
      ensures Pending() == old(Pending())[|data|..]
    {
      var size' := Max(rbufsize, DEFAULT_BUFSIZE);
      var buf := rbuf;
      buf.SeekEnd();
      if size < 0 {
        rbuf := new StringIO();
        while true
          invariant Valid() && rbuf.value == "" && buf != rbuf && fresh(rbuf)
          invariant buf == old(rbuf) && buf.pos == |buf.value|
          invariant buf.value + sock.unread == old(Pending())
          decreases |sock.unread|
        {
          data := Recv(size');
          if data == "" {
            break;
          }
          buf.Append(data);
        }
        data := buf.value;
      } else {
        data := ReadIOSized(size, buf);
      }
    }

    /** Takes size bytes out of a StringIO buffer that has them. */
    method TakeBuffered(size: nat, buf: StringIO) returns (rv: string)
      requires Valid() && !usesStr && buf == rbuf && |buf.value| >= size
      modifies this`rbuf, buf
      ensures Valid() && fresh(rbuf)
      ensures rv == old(buf.value)[..size] && rbuf.value == old(buf.value)[size..]
    {
      buf.SeekStart();
      rv := buf.Read(size);
      var rest := buf.ReadRest();
      rbuf := new StringIO();
      rbuf.Append(rest);
    }

    method ReadIOSized(size: nat, buf: StringIO) returns (rv: string)
      requires Valid() && !usesStr && buf == rbuf && buf.pos == |buf.value|
      modifies this, sock, rbuf
      ensures Valid() && fresh(rbuf)
      ensures rv == ReadOf(old(Pending()), size)
      ensures Pending() == old(Pending())[|rv|..]
    {
      ghost var p := Pending();
      var bufLen := buf.pos;
      if bufLen >= size {
        rv := TakeBuffered(size, buf);
        return;
      }
      rbuf := new StringIO();
      while true
        invariant Valid() && rbuf.value == "" && buf != rbuf && fresh(rbuf)
        invariant buf == old(rbuf) && buf.pos == |buf.value| == bufLen < size
        invariant p == buf.value + sock.unread
        decreases |sock.unread|
      {
        var left := size - bufLen;
        ghost var unread := sock.unread;
        var data := Recv(left);
        Advance(p, buf.value, unread, data, sock.unread);
        if data == "" {
          break;
        }
        var n := |data|;
        if n == size && bufLen == 0 {
          assert buf.value == "";
          return data;
        }
        buf.Append(data);
        if n == left {
          break;
        }
        assert n <= left;
        bufLen := bufLen + n;
      }
      rv := buf.value;
    }

    /** readline, StringIO form */
    method ReadlineIO(size: int) returns (line: string)
      requires Valid() && !usesStr
      modifies this, sock, rbuf
      ensures Valid() && fresh(rbuf)
      ensures IsReadline(old(Pending()), size, line)
      ensures Pending() == old(Pending())[|line|..]
    {
      var buf := rbuf;
      buf.SeekEnd();
      if buf.pos > 0 {
        var done, bline := BufferedLineIO(size, buf);
        if done {
          return bline;
        }
      }
      if size < 0 {
        if rbufsize <= 1 {
          line := ReadlineIOUnbuffered(buf);
        } else {
          line := ReadlineIOUnlimited(buf);
        }
      } else {
        line := ReadlineIOLimited(size, buf);
      }
    }

    /** The check whether the buffer has the line already. */
    method BufferedLineIO(size: int, buf: StringIO) returns (done: bool, bline: string)
      requires Valid() && !usesStr && buf == rbuf
      modifies this`rbuf, buf`pos
      ensures Valid() && buf.value == old(buf.value)
      ensures done ==> fresh(rbuf) && IsReadline(old(Pending()), size, bline) && Pending() == old(Pending())[|bline|..]
      ensures !done ==> rbuf == buf && '\n' !in buf.value && (size >= 0 ==> |buf.value| < size)
    {
      buf.SeekStart();
      bline := buf.Readline(size);
      done := (bline != "" && bline[|bline| - 1] == '\n') || |bline| == size;
      if done {
        ReadlineOfPrefix(buf.value, sock.unread, size, bline);
        rbuf := new StringIO();
        var rest := buf.ReadRest();
        rbuf.Append(rest);
      } else {
        ReadlineFellShort(buf.value, size, bline);
      }
    }

    method ReadlineIOUnbuffered(buf: StringIO) returns (line: string)
      requires Valid() && !usesStr && buf == rbuf && '\n' !in buf.value
      modifies this, sock, rbuf
      ensures Valid() && fresh(rbuf)
      ensures IsReadline(old(Pending()), -1, line)
      ensures Pending() == old(Pending())[|line|..]
    {
      ghost var p := Pending();
      buf.SeekStart();
      line := buf.ReadRest();
      rbuf := new StringIO();
      while true
        invariant Valid() && rbuf.value == "" && fresh(rbuf)
        invariant '\n' !in line && p == line + sock.unread
        decreases |sock.unread|
      {
        ghost var unread := sock.unread;
        var data := Recv(1);
        Advance(p, line, unread, data, sock.unread);
        if data == "" {
          LineIsCut(p, -1, line);
          break;
        }
        if data == "\n" {
          LineEnds(p, -1, line, data, sock.unread, 0);
          line := line + data;
          break;
        }
        line := line + data;
      }
    }

    method ReadlineIOUnlimited(buf: StringIO) returns (line: string)
      requires Valid() && !usesStr && buf == rbuf && '\n' !in buf.value
      modifies this, sock, rbuf
      ensures Valid() && fresh(rbuf)
      ensures IsReadline(old(Pending()), -1, line)
      ensures Pending() == old(Pending())[|line|..]
    {
      ghost var p := Pending();
      buf.SeekEnd();
      rbuf := new StringIO();
      while true
        invariant Valid() && rbuf.value == "" && rbuf.pos == 0 && buf != rbuf && fresh(rbuf)
        invariant buf == old(rbuf) && buf.pos == |buf.value|
        invariant '\n' !in buf.value && p == buf.value + sock.unread
        decreases |sock.unread|
      {
        ghost var got, unread := buf.value, sock.unread;
        var data := Recv(rbufsize);
        if data == "" {
          LineIsCut(p, -1, buf.value);
          break;
        }
        Advance(p, got, unread, data, sock.unread);
        var done := TakeLinePiece(buf, data, p);
        if done {
          break;
        }
      }
      line := buf.value;
    }

    /** One received piece of a readline without a limit. */
    method TakeLinePiece(buf: StringIO, data: string, ghost p: string) returns (done: bool)
      requires Valid() && !usesStr && buf != rbuf && rbuf.value == "" && rbuf.pos == 0
      requires buf.pos == |buf.value| && '\n' !in buf.value
      requires p == buf.value + (data + sock.unread)
      modifies buf, rbuf
      ensures Valid() && buf.pos == |buf.value|
      ensures done ==> IsReadline(p, -1, buf.value) && rbuf.value + sock.unread == p[|buf.value|..]
      ensures !done ==> && rbuf.value == "" && rbuf.pos == 0 && '\n' !in buf.value
                        && buf.value == old(buf.value) + data
    {
      var nl := FindNewline(data, |data|);
      if nl >= 0 {
        nl := nl + 1;
        LineEnds(p, -1, buf.value, data, sock.unread, nl - 1);
        buf.Append(data[..nl]);
        rbuf.Append(data[nl..]);
        return true;
      }
      buf.Append(data);
      return false;
    }

    method ReadlineIOLimited(size: nat, buf: StringIO) returns (line: string)
      requires Valid() && !usesStr && buf == rbuf && '\n' !in buf.value
      requires |buf.value| <= size
      modifies this, sock, rbuf
      ensures Valid() && fresh(rbuf)
      ensures IsReadline(old(Pending()), size, line)
      ensures Pending() == old(Pending())[|line|..]
    {
      ghost var p := Pending();
      buf.SeekEnd();
      var bufLen := buf.pos;
      if bufLen >= size {
        LineIsCut(p, size, buf.value);
        line := TakeBuffered(size, buf);
        return;
      }
      rbuf := new StringIO();
      while true
        invariant Valid() && rbuf.value == "" && rbuf.pos == 0 && buf != rbuf && fresh(rbuf)
        invariant buf == old(rbuf) && buf.pos == |buf.value| == bufLen < size
        invariant '\n' !in buf.value && p == buf.value + sock.unread
        decreases |sock.unread|
      {
        ghost var got, unread := buf.value, sock.unread;
        var data := Recv(rbufsize);
        if data == "" {
          LineIsCut(p, size, buf.value);
          break;
        }
        Advance(p, got, unread, data, sock.unread);
        var done;
        done, line := TakePiece(size, buf, data, p);
        if done {
          return;
        }
        bufLen := bufLen + |data|;
      }
      line := buf.value;
    }

    /** One received piece of a readline with a limit. When it ends the line,
        what is left of it goes to the new buffer. */
    method TakePiece(size: nat, buf: StringIO, data: string, ghost p: string)
      returns (done: bool, line: string)
      requires Valid() && !usesStr && buf != rbuf && rbuf.value == "" && rbuf.pos == 0
      requires buf.pos == |buf.value| < size && '\n' !in buf.value
      requires p == buf.value + (data + sock.unread)
      modifies buf, rbuf
      ensures Valid() && buf.pos == |buf.value|
      ensures done ==> IsReadline(p, size, line) && rbuf.value + sock.unread == p[|line|..]
      ensures !done ==> && rbuf.value == "" && rbuf.pos == 0 && '\n' !in buf.value
                        && buf.value == old(buf.value) + data && |buf.value| < size
    {
      ghost var got, rest := buf.value, sock.unread;
      var left := size - buf.pos;
      var nl := FindNewline(data, left);
      if nl >= 0 {
        LineEnds(p, size, got, data, rest, nl);
        line := EndAtNewline(size, buf, data, nl + 1, p);
        return true, line;
      }
      if |data| >= left {
        LineLimit(p, size, got, data, rest);
        line := EndAtLimit(size, buf, data, p);
        return true, line;
      }
      buf.Append(data);
      return false, "";
    }

    method EndAtNewline(size: nat, buf: StringIO, data: string, nl: nat, ghost p: string) returns (line: string)
      requires Valid() && !usesStr && buf != rbuf && rbuf.value == "" && rbuf.pos == 0 && buf.pos == |buf.value|
      requires Completes(p, size, buf.value, data, sock.unread, nl)
      modifies buf, rbuf
      ensures Valid() && buf.pos == |buf.value|
      ensures IsReadline(p, size, line) && rbuf.value + sock.unread == p[|line|..]
    {
      rbuf.Append(data[nl..]);
      assert rbuf.value == data[nl..];
      line := buf.value + data[..nl];
      if buf.pos != 0 {
        buf.Append(data[..nl]);
        return buf.value;
      } else {
        assert line == data[..nl];
        return data[..nl];
      }
    }

    method EndAtLimit(size: nat, buf: StringIO, data: string, ghost p: string) returns (line: string)
      requires Valid() && !usesStr && buf != rbuf && rbuf.value == "" && rbuf.pos == 0
      requires buf.pos == |buf.value| <= size <= |buf.value| + |data|
      requires Completes(p, size, buf.value, data, sock.unread, size - |buf.value|)
      modifies buf, rbuf
      ensures Valid() && buf.pos == |buf.value|
      ensures IsReadline(p, size, line) && rbuf.value + sock.unread == p[|line|..]
    {
      var left := size - buf.pos;
      line := buf.value + data[..left];
      if |data| == size && buf.pos == 0 {
        assert line == data && data[left..] == "";
        return data;
      }
      buf.Append(data[..left]);
      rbuf.Append(data[left..]);
      assert rbuf.value == data[left..];
      return buf.value;
    }

    /** read, str form */
    method ReadStr(size: int) returns (rv: string)
      requires Valid() && usesStr
      modifies this`rbufStr, this`bytesRead, sock
      ensures Valid()
      ensures rv == ReadOf(old(Pending()), size)
      ensures Pending() == old(Pending())[|rv|..]
    {
      if size < 0 {
        rv := ReadStrAll();
      } else {
        rv := ReadStrSized(size);
      }
    }

    method ReadStrAll() returns (rv: string)
      requires Valid() && usesStr
      modifies this`rbufStr, this`bytesRead, sock
      ensures Valid()
      ensures rv == old(Pending()) && Pending() == ""
    {
      ghost var p := Pending();
      rv := rbufStr;
      rbufStr := "";
      var recvSize := if rbufsize <= 1 then DEFAULT_BUFSIZE else rbufsize;
      while true
        invariant Valid() && rbufStr == "" && p == rv + sock.unread
        decreases |sock.unread|
      {
        ghost var unread := sock.unread;
        var data := Recv(recvSize);
        Advance(p, rv, unread, data, sock.unread);
        if data == "" {
          break;
        }
        rv := rv + data;
      }
    }

    method ReadStrSized(size: nat) returns (rv: string)
      requires Valid() && usesStr
      modifies this`rbufStr, this`bytesRead, sock
      ensures Valid()
      ensures rv == ReadOf(old(Pending()), size)
      ensures Pending() == old(Pending())[|rv|..]
    {
      ghost var p := Pending();
      var bufLen := |rbufStr|;
      if bufLen >= size {
        rv, rbufStr := rbufStr[..size], rbufStr[size..];
        return;
      }
      rv := rbufStr;
      rbufStr := "";
      while true
        invariant Valid() && rbufStr == "" && p == rv + sock.unread
        invariant |rv| == bufLen < size
        decreases |sock.unread|
      {
        var left := size - bufLen;
        ghost var unread := sock.unread;
        var data := Recv(Max(rbufsize, left));
        Advance(p, rv, unread, data, sock.unread);
        if data == "" {
          break;
        }
        var n := |data|;
        if n >= left {
          SizeReached(p, size, rv, data, sock.unread);
          rbufStr := data[left..];
          rv := rv + data[..left];
          break;
        }
        rv := rv + data;
        bufLen := bufLen + n;
      }
    }

    /** readline, str form */
    method ReadlineStr(size: int) returns (line: string)
      requires Valid() && usesStr
      modifies this`rbufStr, this`bytesRead, sock
      ensures Valid()
      ensures IsReadline(old(Pending()), size, line)
      ensures Pending() == old(Pending())[|line|..]
    {
      ghost var p := Pending();
      if size < 0 && rbufsize <= 1 {
        assert rbufStr == "";
        line := ReadlineStrUnbuffered();
        return;
      }
      var limit := if size < 0 then |rbufStr| else size;
      var nl := FindNewline(rbufStr, limit);
      if nl >= 0 {
        nl := nl + 1;
        line := rbufStr[..nl];
        LineEnds(p, size, "", rbufStr, sock.unread, nl - 1);
        rbufStr := rbufStr[nl..];
        return;
      }
      if size >= 0 && |rbufStr| >= size {
        LineIsCut(p, size, rbufStr[..size]);
        line, rbufStr := rbufStr[..size], rbufStr[size..];
        return;
      }
      line := ReadlineStrLoop(size);
    }

    method ReadlineStrUnbuffered() returns (line: string)
      requires Valid() && usesStr && rbufStr == ""
      modifies this`bytesRead, sock
      ensures Valid()
      ensures IsReadline(old(Pending()), -1, line)
      ensures Pending() == old(Pending())[|line|..]
    {
      ghost var p := Pending();
      line := "";
      while true
        invariant Valid() && '\n' !in line && p == line + sock.unread
        decreases |sock.unread|
      {
        ghost var unread := sock.unread;
        var data := Recv(1);
        Advance(p, line, unread, data, sock.unread);
        if data == "" {
          LineIsCut(p, -1, line);
          return;
        }
        if data == "\n" {
          LineEnds(p, -1, line, data, sock.unread, 0);
          line := line + data;
          return;
        }
        line := line + data;
      }
    }

    /** The receiving loop of readline, str form; size is negative for no limit. */
    method ReadlineStrLoop(size: int) returns (line: string)
      requires Valid() && usesStr && '\n' !in rbufStr && (size >= 0 ==> |rbufStr| < size)
      requires rbufsize <= 1 ==> size >= 0
      modifies this`rbufStr, this`bytesRead, sock
      ensures Valid()
      ensures IsReadline(old(Pending()), size, line)
      ensures Pending() == old(Pending())[|line|..]
    {
      ghost var p := Pending();
      line := rbufStr;
      rbufStr := "";
      while true
        invariant Valid() && rbufStr == "" && '\n' !in line && p == line + sock.unread
        invariant size >= 0 ==> |line| < size
        decreases |sock.unread|
      {
        ghost var unread := sock.unread;
        var data := Recv(rbufsize);
        Advance(p, line, unread, data, sock.unread);
        if data == "" {
          LineIsCut(p, size, line);
          return;
        }
        var left := if size < 0 then |data| else size - |line|;
        var nl := FindNewline(data, left);
        if nl >= 0 {
          nl := nl + 1;
          LineEnds(p, size, line, data, sock.unread, nl - 1);
          rbufStr := data[nl..];
          line := line + data[..nl];
          return;
        }
        if size >= 0 && |data| >= left {
          LineLimit(p, size, line, data, sock.unread);
          rbufStr := data[left..];
          line := line + data[..left];
          return;
        }
        line := line + data;
      }
    }

    /** read: the plain stream operation, whichever form is in use and however
        the socket cuts the stream into pieces. */
    method Read(size: int) returns (data: string)
      requires Valid()
      modifies this, sock, rbuf
      ensures Valid() && (rbuf == old(rbuf) || fresh(rbuf))
      ensures data == ReadOf(old(Pending()), size)
      ensures old(Pending()) == data + Pending()
    {
      if usesStr {
        data := ReadStr(size);
      } else {
        data := ReadIO(size);
      }
    }

    /** readline: likewise. IsReadline pins the line down: ReadlineIs. */
    method Readline(size: int) returns (line: string)
      requires Valid()
      modifies this, sock, rbuf
      ensures Valid() && (rbuf == old(rbuf) || fresh(rbuf))
      ensures IsReadline(old(Pending()), size, line)
      ensures old(Pending()) == line + Pending()
    {
      if usesStr {
        line := ReadlineStr(size);
      } else {
        line := ReadlineIO(size);
      }
    }
  }
}
