/** The event bits of inotify, by position in a mask. */
module EventBits {
  const IN_ACCESS: nat := 0
  const IN_MODIFY: nat := 1
  const IN_ATTRIB: nat := 2
  const IN_CLOSE_WRITE: nat := 3
  const IN_CLOSE_NOWRITE: nat := 4
  const IN_OPEN: nat := 5
  const IN_MOVED_FROM: nat := 6
  const IN_MOVED_TO: nat := 7
  const IN_CREATE: nat := 8
  const IN_DELETE: nat := 9
  const IN_DELETE_SELF: nat := 10
  const IN_MOVE_SELF: nat := 11
  const IN_UNMOUNT: nat := 13
  const IN_Q_OVERFLOW: nat := 14
  const IN_IGNORED: nat := 15
  const IN_ISDIR: nat := 30
  const IN_ONESHOT: nat := 31
}
