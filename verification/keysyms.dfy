/** The X11 keysym codes the key tables use (the values of Xlib's XK constants). */
module Keysyms {
  const XK_space: int := 0x0020
  const XK_0: int := 0x0030
  const XK_1: int := 0x0031
  const XK_2: int := 0x0032
  const XK_3: int := 0x0033
  const XK_4: int := 0x0034
  const XK_5: int := 0x0035
  const XK_6: int := 0x0036
  const XK_7: int := 0x0037
  const XK_8: int := 0x0038
  const XK_9: int := 0x0039
  const XK_c: int := 0x0063
  const XK_d: int := 0x0064
  const XK_f: int := 0x0066
  const XK_k: int := 0x006b
  const XK_l: int := 0x006c
  const XK_v: int := 0x0076
  const XK_Return: int := 0xff0d
  const XK_Left: int := 0xff51
  const XK_Up: int := 0xff52
  const XK_Right: int := 0xff53
  const XK_Down: int := 0xff54
  const XK_Shift_L: int := 0xffe1
  const XK_Shift_R: int := 0xffe2
  const XK_Control_R: int := 0xffe4
  const XK_Alt_L: int := 0xffe9
  const XK_Alt_R: int := 0xffea
  const XK_Delete: int := 0xffff
}
